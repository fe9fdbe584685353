# VialKeeper benchmark and driver models

Dafny models of the algorithmic core of the VialKeeper benchmark tools and storage drivers, with
proofs of what they promise. Verify everything with `dafny verify dfyconfig.toml`.

## What is modelled

**The native replay protocol.** An encoder (`bench/overhead/native.exs`) and an independently written
C decoder, statement table and interpreter (`bench/native/vk_replay.c`) replay one captured list of SQL
operations; the same list is also replayed through the driver and through the connection wrapper.

- `Bytes`, `Wire`: big-endian fields, the request grammar, encoder and decoder. The decoder accepts
  exactly the renderings of well-formed lists, and inverts the encoder.
- `StatementTable`: the growing table of prepared statements and the registry of ids on the other side,
  which stay in step over every run.
- `Replay`, `ReplayEquivalence`: the three replays as interpreters over an abstract SQL engine. The main
  theorem, `ReplayEquivalence`, starts from encoded bytes and says exactly when the request is accepted
  and when native and driver runs issue the same SQL with the same values; `GuardDecides` reduces that to
  a guard on the captured list alone.
- `NativeProcess`: `vk_replay.c` as it is written, with a cursor and a table changed in place, and the
  registry of statement ids in front of it; each method is proved against the functions above.

**The storage drivers.**

- `BusyHandler`: the sleep schedule, and the wrapping 32-bit arithmetic that computes it. `CancelProtocol`: mutex, cancel flag,
  busy handler, close and inline queries as atomic steps of any number of threads. `SqliteConnection`:
  the connection object with its fields; a call that is not interrupted is a run of protocol steps.
- `SharedDatabase`: the Turso registry of weak references as atomic steps of any number of threads that
  open, close and delete. `DatabaseRegistry`: the driver object with strong counts and a retaining loop;
  uninterrupted calls are runs of the protocol, and keep sharing even for aliases of a file.

**Ranking, sampling, selection.** `Sorting` (library sorting, as the unique sorted permutation),
`Metrics` (nDCG), `AveragePrecision`, `Sampler`, `Stats`, `AttachmentBudget`, `Csv`, `Select`, `Flags`.

**The searcher cache.** `SearcherCache` (the resource object, its counters and what every run keeps) and
`CacheLocks` (its three locks under any number of threads).

`Wrappers` holds the shared Option, `Arithmetic` small facts about powers of two, division and products. Floating-point numbers are reals, the nDCG
discount is an arbitrary positive nonincreasing weight, SQL execution is a deterministic step from a
database, SQL text and values to a database, a row count and success.

## Where the code and its promises differ

Each point is a proved statement; the code is modelled as it is.

- `bench/overhead/native.exs:174` says the encoder mirrors the connection's parameter conversion. It does
  not for `:undefined` (a null natively, the text `undefined` through the driver), nor for integers
  outside 64 bits (cut to 64 bits natively, refused by the driver): `Replay.ConversionsAgreeExactly`.
- With fewer parameters than placeholders the native process runs with what earlier operations left
  bound, while the driver refuses: `Replay.OtherStepDiverges`, `ReplayEquivalence.ReplayEquivalence`.
- The decoder takes every kind byte other than 1 for a statement and ignores bytes after the last
  operation: `Wire.DecodeRunExact`.
- SQL that compiles to nothing prepares to a null handle, and one such statement makes the process refuse
  the whole request: `ReplayEquivalence.RequestDecodes`.
- The doubling loop of the statement table ends exactly for ids below 2^31:
  `StatementTable.DoublingTerminatesExactly`.
- The busy handler's 32-bit sum overflows in some episode exactly when a timeout may exceed 2147483628
  ms: `BusyHandler.OverflowReachableExactly`. The release build wraps around then: the first overflowing
  call sleeps on for timeouts up to 29 ms, long over, and practically for ever above that:
  `BusyHandler.FirstOverflow`. The code follows the schedule exactly for timeouts up to that limit:
  `BusyHandler.CodeFollowsScheduleExactly`.
- A close does not always wake the caller it waits for: another thread that enters between the close's
  store and its locking clears the flag: `CancelProtocol.CloseCanBeForgotten`. What a close has set stays
  set up to its take exactly when no thread enters an open connection in between:
  `CancelProtocol.StoreSeenExactly`. A store after the clear is always seen: `CancelProtocol.FlagExact`.
- The Turso registry computes its key before it takes the lock; two opens of one alias of a file that does
  not exist yet can split the file into two database objects. Sharing holds over all interleavings exactly
  when the opened paths are canonical, whatever other programs create:
  `SharedDatabase.SharingHoldsExactly`. Without interleaving aliases do no harm:
  `DatabaseRegistry.CoherentShares`.
- An open can be served an object of a deleted file, when another program recreates the file or when the
  path is an alias; it never is exactly when every opened path is canonical and created by opens only:
  `SharedDatabase.FreshnessHoldsExactly`.
- The memory figure of the cache over-counts by one MiB for each overwritten entry since the cache was
  last emptied: `SearcherCache.MemoryExactly`.
- `get_stats` takes the cache's locks in the opposite order: `CacheLocks.DeadlockFreeExactly`.
- Articles that share a pmcid are each given what spills to one of them, so the budgets can be exceeded;
  which articles are safe under every budget: `AttachmentBudget.ConservesAlwaysExactly`.
- nDCG, recall and average precision can exceed 1. For a given ranking and cut-off each of them is at most
  1 under all judgements exactly when the top k repeats no id: `Metrics.NdcgBoundedExactly`,
  `AveragePrecision.BoundedExactly`.
- The selection of the smallest items is sort-and-take for every listing order and count exactly when the
  keys are pairwise distinct: `Select.SelectsExactly`.
- `bench/overhead/native.exs:285` says the resolved flags are the effective definitions only. An earlier
  definition of a name that is defined again stays in the list (`Flags.RedefinitionStays`); all definitions
  in it are effective exactly when no name has two standing definitions with different bodies:
  `Flags.EffectiveExactly`. A macro that the compiler starts with is not removed by its `-U`:
  `Flags.ResolvePreservesExactly`.

## Model

| member | source | states |
|---|---|---|
| `Bytes.FromBeOfBe` | bench/native/vk_replay.c:156-168 | Reading back a written big-endian field of any width gives the written integer modulo 256^width. |
| `Bytes.BeOfFromBe` | bench/native/vk_replay.c:156-168 | Every byte string is the big-endian form of the number read from it, so no two strings read alike. |
| `Bytes.SignedFieldExact` | bench/overhead/native.exs:177 | A signed 64-bit field carries an integer unchanged if and only if it is a 64-bit integer; what is read is always one. |
| `Wire.TakeParamsAdvances` | bench/native/vk_replay.c:480-502 | On any bytes, reading any number of parameters never moves the cursor back or past the end and never forgets a failure. |
| `Wire.DecodeOpsSafe` | bench/native/vk_replay.c:460-508 | On any bytes and any table: the cursor stays inside the buffer, failure is sticky, and success means unfailed, exactly `count` operations, and live slots only. |
| `Wire.OpsComplete` | bench/native/vk_replay.c:460-508 | The rendering of any operation list within the field widths is decoded to that list, with the cursor at its end. |
| `Wire.OpsSound` | bench/native/vk_replay.c:460-508 | Whatever is decoded fits the field widths, names live slots, and its rendering is the bytes consumed. |
| `Wire.DecodeRunExact` | bench/native/vk_replay.c:537-552 | For all bytes and all lists: a run request decodes to the list if and only if the list fits and the bytes start with its count and rendering. |
| `Wire.EncodeParamRenders` | bench/overhead/native.exs:174-184 | The bytes sent for a parameter are those of the value the decoder is to bind. |
| `Wire.AtomBytes` | bench/overhead/native.exs:174-179 | An atom is sent as the single byte 0 if and only if its name is the three bytes of `nil` or the nine of `undefined`; any other one as the tag 3, its length and its name. |
| `Wire.ParamsBytes` | bench/overhead/native.exs:174-184 | A list with one parameter of each kind, sent byte by byte: tags 0 to 4, eight-byte numbers, four-byte lengths. |
| `Wire.EncodeOpsRender` | bench/overhead/native.exs:164-172 | The same for whole operation lists: the encoder writes the grammar the decoder reads. |
| `Wire.WireRoundTrip` | bench/overhead/native.exs:115-117 | Every list within the field widths that names live ids is decoded, behind its tag, to exactly the list sent, unfailed and with the cursor at the end of the request. |
| `Wire.RunBytes` | bench/overhead/native.exs:115-172 | A whole run request byte by byte: tag 82, count, and the kinds 1 and 0 of an execution and of a statement with its flag, id and number of parameters. |
| `Wire.WireValueExact` | bench/overhead/native.exs:174-182 | The decoded parameter is the captured value if and only if an integer fits 64 bits and the term is not the atom `undefined`. |
| `Wire.FewerLive` | bench/native/vk_replay.c:473-478 | Against fewer live slots a request is refused, or decoded as against more and names only the fewer. |
| `Wire.PrepareExact` | bench/overhead/native.exs:113 | A prepare request is read as an id and a text if and only if it starts with their encoding; every encoded one is read as what was sent. |
| `Wire.PrepareBytes` | bench/overhead/native.exs:113 | A whole prepare request byte by byte: tag 80, id, length, SQL. |
| `StatementTable.DoublingsOfPower` | bench/native/vk_replay.c:357-360 | Doubling a 32-bit capacity 2^n gives the next powers of two up to 2^31, and zero for ever after. |
| `StatementTable.DoublingTerminatesExactly` | bench/native/vk_replay.c:356-360 | The doubling loop reaches a capacity above the id if and only if the id is below 2^31. |
| `StatementTable.GrownIsCapacity` | bench/native/vk_replay.c:357-364 | The capacity the loop stops at is again a power of two between 16 and 2^31, so the next growth terminates too. |
| `StatementTable.PrepareEffect` | bench/native/vk_replay.c:356-377 | Preparing the next id keeps every earlier slot, fills that slot and leaves all later ones null. |
| `StatementTable.InternKeepsStep` | bench/sqlite_driver_overhead_benchmark.exs:1040-1053 | One request, successful or not, keeps registry and table in step, returns the id of its SQL, never changes an earlier id, and fails exactly for new SQL that does not prepare. |
| `StatementTable.RunsKeepStep` | bench/sqlite_driver_overhead_benchmark.exs:1037-1053 | After any run of requests the ids are exactly 0..n-1, each names the slot that holds its SQL (null for blank SQL), and all other slots are null. |
| `Replay.RunOpKeepsStatements` | bench/native/vk_replay.c:556-585 | Running an operation changes no prepared statement and no slot, only bound values. |
| `Replay.ConversionsAgreeExactly` | bench/sqlite_driver_overhead_benchmark.exs:1011-1020 | Both converters refuse the same terms, and a supported term reaches SQLite as the same value on both sides if and only if it is a 64-bit integer or no integer, and not `undefined`. |
| `Replay.DriverAtoms` | bench/sqlite_driver_overhead_benchmark.exs:1011-1017 | The driver binds an atom as a null if and only if its name is the three bytes of `nil`, and every other atom as the text of its name. |
| `Replay.NormalizeIsDriverParam` | lib/vial_keeper/storage/sqlite/connection.ex:235-257 | For supported parameters the connection's normalization, shortcut for plain lists included, is the driver conversion applied to each of them. |
| `Replay.ConnectionMatchesDriver` | bench/sqlite_driver_overhead_benchmark.exs:1156-1183 | For every supported list the connection replay and the driver replay reach the same state, rows, issued statements and failure. |
| `Replay.NifBindExact` | native/vial_sqlite/src/lib.rs:278-307 | Binding succeeds if and only if there is one parameter per placeholder and each has a value. |
| `Replay.BoundValuesAgreeExactly` | bench/overhead/native.exs:174-182 | With one parameter per placeholder, the driver binds the values the native process binds if and only if every parameter is portable. |
| `Replay.LeftoversAreIssued` | bench/native/vk_replay.c:427-458 | A statement with at most as many parameters as placeholders is issued with the parameters in front and behind them what earlier operations left bound, which stays bound. |
| `Replay.FreshBindings` | bench/native/vk_replay.c:346-380 | A statement just prepared has one null for each placeholder of its SQL. |
| `Replay.AgreeableStep` | bench/native/vk_replay.c:556-585 | An operation with too many parameters, or with one portable parameter per placeholder, takes both sides from the same position to the same position: same statement, database, rows and failure. |
| `Replay.OtherStepDiverges` | bench/native/vk_replay.c:427-458 | Any other operation makes the issued statements differ at once. |
| `ReplayEquivalence.NativeOpsMatch` | bench/sqlite_driver_overhead_benchmark.exs:1022-1033 | Building a request keeps the table in step and gives every statement operation an id whose slot holds its SQL. |
| `ReplayEquivalence.RequestDecodes` | bench/sqlite_driver_overhead_benchmark.exs:1022-1033 | The request built from a captured list within the field widths is accepted if and only if no captured SQL is blank; then it comes back as the captured operations on the right statements. |
| `ReplayEquivalence.RunsAgreeExactly` | bench/native/vk_replay.c:537-612 | From the same position, the decoded run and the driver run issue the same statements if and only if every operation reached meets the guard; then they end in the same database with the same rows and fail together. |
| `ReplayEquivalence.ReplayEquivalence` | bench/sqlite_driver_overhead_benchmark.exs:977-1033 | From captured list to bytes to native run, with leftovers of earlier runs bound: accepted if and only if no SQL is blank, and then the same SQL and values as driver and connection if and only if every operation the driver reaches meets the guard; then same database, same rows modulo 2^64, same failure, and all operations counted. |
| `ReplayEquivalence.GuardDecidesReached` | bench/sqlite_driver_overhead_benchmark.exs:1156-1166 | A guard on the captured list alone (up to the first operation with too many parameters, one portable parameter per placeholder) makes every operation reached meet its guard, from every database; every driver run whose SQL does not fail needs it. |
| `ReplayEquivalence.GuardDecides` | bench/sqlite_driver_overhead_benchmark.exs:977-1033 | For lists without blank SQL, the list guard makes native and driver replays agree on statements, database and rows from every database; where no SQL fails, as in every successful run, they agree on the statements if and only if it holds. |
| `ReplayEquivalence.DriverTotals` | bench/sqlite_driver_overhead_benchmark.exs:1156-1166 | A successful driver run whose queries return their captured row counts reports the expected total. |
| `ReplayEquivalence.ReplayTotals` | bench/sqlite_driver_overhead_benchmark.exs:985 | If every query returns its captured count, the driver and connection totals are the expected one, and so is the native total whenever no SQL is blank and every operation reached meets the guard, so the row check cannot raise. |
| `NativeProcess.RequestCursor.TakeU8` | bench/native/vk_replay.c:146-154 | Reads one byte or fails, as the decoder function says. |
| `NativeProcess.RequestCursor.TakeBe` | bench/native/vk_replay.c:156-168 | The shifting loop computes the big-endian value without losing a bit of its 64-bit accumulator. |
| `NativeProcess.RequestCursor.TakeBytes` | bench/native/vk_replay.c:170-181 | Hands out the slice at the cursor, or null and a failure when it would pass the end. |
| `NativeProcess.RequestCursor.TakeString` | bench/native/vk_replay.c:183-196 | Reads a length-prefixed string; null whenever the cursor has failed, now or earlier. |
| `NativeProcess.RequestCursor.TakeParam` | bench/native/vk_replay.c:481-502 | Reads one parameter of each of the five kinds, and fails on any other kind byte. |
| `NativeProcess.RequestCursor.TakeParams` | bench/native/vk_replay.c:480-502 | The loop reads `count` parameters, those after a failure included. |
| `NativeProcess.CopySizeFits` | bench/native/vk_replay.c:192 | The size of the copy made of a string from a packet below 2^32 bytes does not wrap. |
| `NativeProcess.PutU64` | bench/native/vk_replay.c:528-535 | Writes the eight big-endian bytes at the given place of the buffer and changes no other byte. |
| `NativeProcess.RunReplyRoundTrip` | bench/overhead/native.exs:148-149 | A reply packet is read as four values if and only if it is the tag and the eight-byte forms of those values. |
| `NativeProcess.Process.CloseDatabase` | bench/native/vk_replay.c:198-211 | Makes every slot null and keeps the capacity. |
| `NativeProcess.Process.Grow` | bench/native/vk_replay.c:356-365 | For ids below 2^31 the table becomes its extension: old slots in place, new ones null, room for the id. |
| `NativeProcess.Process.HandlePrepare` | bench/native/vk_replay.c:346-380 | A malformed request, whatever its id, changes nothing; otherwise, for ids below 2^31, the slot of the id holds the new handle (null when preparing fails) and the reply says which. |
| `NativeProcess.Process.DecodeOp` | bench/native/vk_replay.c:463-505 | Decodes one operation against the live slots of the table, as the decoder function says. |
| `NativeProcess.Process.DecodeOps` | bench/native/vk_replay.c:460-508 | The decoding loop is the decoder function: same operations, same refusal, same cursor. |
| `NativeProcess.Process.BindParams` | bench/native/vk_replay.c:427-458 | Overwrites the first placeholders in order, keeps the rest, stops at the first placeholder that does not exist, and touches no other slot. |
| `NativeProcess.Process.RunOne` | bench/native/vk_replay.c:556-585 | One operation in place is one step of the interpreter the replay theorem is about. |
| `NativeProcess.Process.RunAll` | bench/native/vk_replay.c:556-585 | The timed loop is the interpreter: same database, slots, rows, count, failure and issued statements. |
| `NativeProcess.Process.HandleRun` | bench/native/vk_replay.c:537-612 | On any request: malformed ones execute nothing; otherwise database and slots are those of the interpreter, and the reply is its measurements or its failure. |
| `NativeProcess.CountRows` | bench/native/vk_replay.c:571-582 | Adding the row flag once per row in a 64-bit counter gives the count modulo 2^64. |
| `NativeProcess.NativeControl.NativeStatement` | bench/sqlite_driver_overhead_benchmark.exs:1040-1053 | Looks the SQL up or sends an encoded prepare request that the process reads back; registry and table together move as the statement-table functions say, and stay in step. |
| `BusyHandler.WaitedNext` | native/vial_sqlite/src/lib.rs:80-95 | Each call's recomputed elapsed time is the previous one plus the previous scheduled delay. |
| `BusyHandler.WaitedElapsed` | native/vial_sqlite/src/lib.rs:31-32 | The elapsed times are 0, 1, 3, 8, 18, 33, 53, 78, 103, 128, 178, 228 and then grow by 50 per call. |
| `BusyHandler.SleptWithinTimeout` | native/vial_sqlite/src/lib.rs:73-102 | Whatever the timeout is set to in between, every sleeping call sleeps a positive time and leaves the total at most at the timeout it read. |
| `BusyHandler.SleptOnSchedule` | native/vial_sqlite/src/lib.rs:73-102 | Under a constant timeout an episode still going has slept exactly the schedule, cut at the timeout. |
| `BusyHandler.ConstantTimeoutSleepsExactly` | native/vial_sqlite/src/lib.rs:73-102 | An uncancelled episode with constant timeout T sleeps exactly T ms in finitely many calls (none for T <= 0) and then gives up. |
| `BusyHandler.OverflowReachableExactly` | native/vial_sqlite/src/lib.rs:82-83 | Some episode with timeouts up to a limit reaches a call whose elapsed time exceeds 32 bits if and only if the limit exceeds 2147483628. |
| `BusyHandler.CodeDelayExact` | native/vial_sqlite/src/lib.rs:80-95 | Without overflow the wrapping arithmetic computes the delay of the schedule, for every 32-bit timeout. |
| `BusyHandler.FirstOverflow` | native/vial_sqlite/src/lib.rs:82-95 | The first overflowing call, for every 32-bit timeout read: it gives up for timeouts of at most -2147483618, sleeps 1 to 50 ms for those above that of at most 29, and more than 2^63 ms for all others. |
| `BusyHandler.CodeFollowsScheduleExactly` | native/vial_sqlite/src/lib.rs:73-102 | Every call that the wrapping arithmetic makes under timeouts up to a limit sleeps as scheduled if and only if the limit is at most 2147483628. |
| `CancelProtocol.StepKeepsInv` | native/vial_sqlite/src/lib.rs:104-127 | Every atomic step of every thread keeps: one mutex holder, statements run on an open connection only, refused calls have executed nothing. |
| `CancelProtocol.MutualExclusion` | native/vial_sqlite/src/lib.rs:104-127 | At any moment of any run at most one thread is inside, and none executes on a connection that was taken. |
| `CancelProtocol.OnlyHolderClears` | native/vial_sqlite/src/lib.rs:118-120 | Only the mutex holder, entering an open connection, ever clears the cancel flag. |
| `CancelProtocol.FlagExact` | native/vial_sqlite/src/lib.rs:182-188 | While a thread executes, the flag is set if and only if a cancel or a close was issued since that thread cleared it. |
| `CancelProtocol.HandlerSeesCancelExactly` | native/vial_sqlite/src/lib.rs:76-101 | Each look of the busy handler at the flag ends the wait if and only if a cancel or a close was issued since the clear. |
| `CancelProtocol.StoreSeenExactly` | native/vial_sqlite/src/lib.rs:169-188 | The flag that a cancel or a close sets is still set at every moment up to any later action, such as the take of the close, if and only if no thread enters an open connection in between. |
| `CancelProtocol.StoreEndsWaits` | native/vial_sqlite/src/lib.rs:73-102 | As long as no thread enters, every look of a busy handler after the store ends its wait. |
| `CancelProtocol.WaitsOnSchedule` | native/vial_sqlite/src/lib.rs:73-102 | In every run of any threads, as long as a thread's reads of the timeout find the same value up to 2147483628: its handler is called with the numbers 0, 1, 2, ... of the current wait, has slept the schedule cut at the timeout, and with a clear flag gives up only after exactly the timeout. |
| `CancelProtocol.CloseCanBeForgotten` | native/vial_sqlite/src/lib.rs:169-180 | A run in which a close is pending and yet the busy handler of another thread sees a clear flag and goes on waiting. |
| `CancelProtocol.ClosedForGood` | native/vial_sqlite/src/lib.rs:170-180 | Once a close has taken the connection nothing is executed any more and every call that gets the mutex answers `closed`. |
| `CancelProtocol.ContendedExecutesNothing` | native/vial_sqlite/src/lib.rs:215-234 | An inline query that finds the mutex taken answers `contended`, has executed nothing, changed nothing shared, and returns next. |
| `SqliteConnection.Conn.Ask` | native/vial_sqlite/src/lib.rs:73-95 | Up to its sleep, for every 32-bit call number and timeout: gives up when cancelled or out of time, otherwise sleeps what the wrapping arithmetic gives; a run of the protocol's steps. |
| `SqliteConnection.Conn.Wake` | native/vial_sqlite/src/lib.rs:97-101 | After the sleep, whatever other threads called meanwhile: goes on if and only if the flag is clear, as the protocol step does. |
| `SqliteConnection.Sleep` | native/vial_sqlite/src/lib.rs:80-95 | The summing loop, each step wrapped to 32 bits, computes the wrapped elapsed time and delay for every call number, negative ones included. |
| `SqliteConnection.Conn.Query` | native/vial_sqlite/src/lib.rs:208-213 | With the mutex granted: `closed` and no change on a taken connection, otherwise what the replay assumes of the driver with the flag cleared first; the mutex is released, and the call is a run of protocol steps. |
| `SqliteConnection.Conn.QueryInline` | native/vial_sqlite/src/lib.rs:215-234 | Looks at the mutex: when a thread holds it, answers `contended` and changes nothing; when it is free, does as a query does. |
| `SqliteConnection.Conn.WithDb` | native/vial_sqlite/src/lib.rs:110-127 | Runs on the open connection after clearing the flag; without one answers `closed` and leaves the flag alone. |
| `SqliteConnection.Conn.Bind` | native/vial_sqlite/src/lib.rs:278-307 | The binding loop gives the values of all parameters, or refuses; it succeeds if and only if the count is right and every parameter has a value. |
| `SqliteConnection.Conn.Close` | native/vial_sqlite/src/lib.rs:169-180 | Sets the flag and takes the connection whether or not closing succeeds, answers `ok` when it was taken before, and is a run of protocol steps. |
| `SqliteConnection.LockedSteps` | native/vial_sqlite/src/lib.rs:208-213 | An uninterrupted statement call leaves the protocol state as it was but for the cleared flag. |
| `SharedDatabase.LiveOnlyByBuild` | native/vial_turso/src/lib.rs:104-128 | No step revives an object: what can be upgraded was in use before or has just been built. |
| `SharedDatabase.StepSeesNoAlias` | native/vial_turso/src/lib.rs:103-128 | While canonical paths are opened, a step does what it would do in a file system without aliases. |
| `SharedDatabase.StepKeepsInv` | native/vial_turso/src/lib.rs:104-179 | While canonical paths are opened, every atomic step of every thread, deletions and creations by other programs included, keeps the registry invariant: objects in use of an existing file are registered or about to be, one object per incarnation; and for files no other program creates, entries are current. |
| `SharedDatabase.RunKeepsInv` | native/vial_turso/src/lib.rs:104-179 | The invariant holds after every interleaving of opens of canonical paths, closes, deletions and creations by other programs. |
| `SharedDatabase.ReopenIsFresh` | native/vial_turso/src/lib.rs:111-117 | In a run that opens canonical paths and in which no other program creates the reopened file, an open that takes the lock after the file was deleted returns an object of a later incarnation, however long the old object stays in use. |
| `SharedDatabase.SharingHoldsExactly` | native/vial_turso/src/lib.rs:103-128 | For any set of opened paths: over all interleavings two open connections to one incarnation hold the same object if and only if these paths are canonical, whatever files other programs create. |
| `SharedDatabase.FreshnessHoldsExactly` | native/vial_turso/src/lib.rs:105-127 | For any set of opened paths and of files other programs may create: no open is ever served an object older than the file it found if and only if the opened paths are canonical and not among these files. |
| `SharedDatabase.AliasServesStale` | native/vial_turso/src/lib.rs:103-127 | For every alias, a run of opens and a deletion in which an open is served the object of a deleted file. |
| `SharedDatabase.OutsideCreationServesStale` | native/vial_turso/src/lib.rs:111-117 | For every opened file that another program may create, a run in which an open is served the object of the deleted file. |
| `DatabaseRegistry.UpgradeExactly` | native/vial_turso/src/lib.rs:113-116 | A weak reference upgrades if and only if the object's strong count is positive. |
| `DatabaseRegistry.Driver.SharedDatabase` | native/vial_turso/src/lib.rs:103-128 | Returns the registered live object of the path's file, or a new one; an uninterrupted call is a run of protocol steps and keeps coherence for any aliases. |
| `DatabaseRegistry.Driver.Upgrade` | native/vial_turso/src/lib.rs:113-117 | Finds an object if and only if the file exists and the registry has a live one for it, and takes a reference. |
| `DatabaseRegistry.Driver.BuildNew` | native/vial_turso/src/lib.rs:119-127 | Builds an object, creates a missing file, forgets the unused entries and registers the object under the canonical key. |
| `DatabaseRegistry.Driver.Retain` | native/vial_turso/src/lib.rs:125 | The retaining loop keeps exactly the entries whose objects are in use. |
| `DatabaseRegistry.Driver.Open` | native/vial_turso/src/lib.rs:130-167 | Fails exactly when creation is not asked for and the file is missing, building fails, or connecting fails; counts, coherence and protocol steps as above. |
| `DatabaseRegistry.Driver.Close` | native/vial_turso/src/lib.rs:169-179 | Closes the connection, then drops its reference; closing twice drops it once. |
| `DatabaseRegistry.BuildKeepsCoherent` | native/vial_turso/src/lib.rs:111-127 | Building and registering an object for a file that has none in use keeps the registry coherent. |
| `DatabaseRegistry.CoherentShares` | native/vial_turso/src/lib.rs:103-128 | Between uninterrupted calls two open connections to one incarnation of a file hold the same object, under whatever aliases they were opened. |
| `Metrics.DistinctIdsCollectOnce` | bench/support/metrics.ex:11-12 | The positive grades a ranking without repeats collects are among the judged grades, as a multiset. |
| `Metrics.BestFirst` | bench/support/metrics.ex:79-85 | Moving the best judged grade to the head of a ranking lowers no sum, and under a strict discount keeps the sum only if nothing moved. |
| `Metrics.DescendingIsBest` | bench/support/metrics.ex:79-85 | For every positive nonincreasing discount the descending list cut at k has the largest gain of all lists of at most k collected grades; under a strict discount it is the only one. |
| `Metrics.NdcgBounds` | bench/support/metrics.ex:10-17 | For every qrels map, cut-off and ranking without repeats in its top k nDCG is in [0, 1]; with a positive ideal it is 1 for the ideal grades, and under a strict discount for no others. |
| `Metrics.GainLaw` | bench/support/metrics.ex:79-85 | Grades that are not positive gain 0, and each step up doubles the gain and adds 1: 1, 3, 7 for the grades 1, 2, 3. |
| `Metrics.NdcgIsQuotient` | bench/support/metrics.ex:10-17 | For every ranking, repeated ids or not: nDCG times the sum over the first k positions of gain times weight of the descending judged grades is the same sum over the first k positions of the ranking; it is 0 when the former is 0. |
| `Metrics.TwoDocuments` | bench/support/metrics.ex:10-17 | Two documents of grades 2 and 1 listed the wrong way round have nDCG (w(0) + 3 w(1)) / (3 w(0) + w(1)) for every discount w. |
| `Metrics.DescendingRankingIsIdeal` | bench/support/metrics.ex:10-17 | A ranking that lists the judged ids in descending grade has nDCG 1 whenever the ideal gain is positive. |
| `Metrics.NdcgBoundedExactly` | bench/support/metrics.ex:10-17 | For every ranking, cut-off and positive nonincreasing discount: nDCG is at most 1 under all judgements if and only if the top k repeats no id. |
| `Metrics.RepeatExceedsNdcg` | bench/support/metrics.ex:10-17 | When the top k repeats an id, judging every listed id 1 makes nDCG exceed 1. |
| `AveragePrecision.FoldIsSum` | bench/support/metrics.ex:54-61 | The fold with its accumulator adds up the precision at each relevant entry and counts the hits. |
| `AveragePrecision.PrecisionBounds` | bench/support/metrics.ex:44-61 | The sum lies between 0 and the number of hits, and equals it exactly for lists that start with their relevant entries. |
| `AveragePrecision.CountIsIntersection` | bench/support/metrics.ex:27-32 | A list without repeats counts the size of its intersection with the relevant set. |
| `AveragePrecision.RelevantExactly` | bench/support/metrics.ex:72-77 | An id is relevant if and only if its grade is positive. |
| `AveragePrecision.RecallIsShare` | bench/support/metrics.ex:19-33 | For every ranking: recall times the number of relevant ids is the number of positions among the first k that hold one; 0 without a relevant id. |
| `AveragePrecision.AveragePrecisionIs` | bench/support/metrics.ex:35-61 | For every ranking: average precision times the number of relevant ids is the sum, over the hit positions i of the first k, of the share of hits among the first i + 1 entries; 0 without a relevant id. |
| `AveragePrecision.CompleteExactly` | bench/support/metrics.ex:36-52 | All relevant ids are hit by the leading entries if and only if the first entries are the relevant set. |
| `AveragePrecision.AveragePrecisionBounds` | bench/support/metrics.ex:19-52 | For rankings without repeats in the top k 0 <= average precision <= recall <= 1, and average precision is 1 if and only if some id is relevant and the top k starts with exactly the relevant set. |
| `AveragePrecision.DeeperCutOff` | bench/support/metrics.ex:19-52 | A deeper cut-off lowers neither measure, repeated ids or not. |
| `AveragePrecision.BoundedExactly` | bench/support/metrics.ex:19-52 | For every ranking and cut-off: recall is at most 1 under all judgements if and only if the top k repeats no id, and so is average precision. |
| `AveragePrecision.RepeatExceeds` | bench/support/metrics.ex:19-52 | When the top k repeats an id, judging every listed id 1 makes both measures exceed 1, to the same value. |
| `AveragePrecision.RepeatedIdsExceedOne` | bench/support/metrics.ex:27-33 | A ranking that repeats its one relevant id has recall and average precision 2. |
| `Sampler.OrderAt` | bench/overhead/sampler.exs:67-74 | At index a with n variants, position p holds variant (a + p) mod n if a div n is even, and variant (a + n - 1 - p) mod n if it is odd. |
| `Sampler.OrderPermutes` | bench/overhead/sampler.exs:67-74 | Every sample runs every variant once. |
| `Sampler.NextCycleReverses` | bench/overhead/sampler.exs:67-74 | The sample n indices later runs in exactly the reverse order. |
| `Sampler.LatinSquare` | bench/overhead/sampler.exs:67-74 | In each aligned cycle of n samples, each variant stands at each position in exactly one sample. |
| `Sampler.PositionsBalanced` | bench/overhead/sampler.exs:67-74 | In any 2n consecutive samples each variant takes each position exactly twice. |
| `Sampler.PrecedenceBalanced` | bench/overhead/sampler.exs:67-74 | In any 2n consecutive samples each variant runs before each other one exactly n times. |
| `Sampler.RunStopsAtFirstReason` | bench/overhead/sampler.exs:76-121 | A run takes samples up to the first count k at which it stops: for the maximum if and only if k has reached it, else for time if and only if k > 0 and the budget is used up, else as converged if and only if k is a multiple of 10, has reached the minimum and the samples have converged; sample i ran in the order of index warmup + i. |
| `Sampler.RunBalanced` | bench/overhead/sampler.exs:76-103 | However a run stops, each variant took each position twice per completed 2n samples and at most twice in the rest. |
| `Stats.PercentileWithin` | bench/overhead/stats.exs:19-25 | Whatever bounds the samples bounds every percentile; fractions 0 and 1 give the smallest and the largest sample. |
| `Stats.PercentileMonotone` | bench/overhead/stats.exs:168-175 | Percentiles grow with the fraction. |
| `Stats.PercentileAtRank` | bench/overhead/stats.exs:168-175 | Where the fraction of n - 1 is a whole number i, the percentile is the i-th smallest sample. |
| `Stats.PercentileAffine` | bench/overhead/stats.exs:168-175 | Between two neighbouring ranks the percentile is affine in the fraction, for all samples: (P(g) - P(f)) (h - f) = (P(h) - P(f)) (g - f). |
| `Stats.PercentileOfProgression` | bench/overhead/stats.exs:19-25 | The terms a, a + b, a + 2b, ... with b >= 0, in any order, have the percentile a + b f (n - 1) at every fraction f. |
| `Stats.PercentileOfPermutation` | bench/overhead/stats.exs:23-25 | Percentiles do not depend on the order of the samples. |
| `Stats.MedianIsMiddle` | bench/overhead/stats.exs:27-29 | The median is the middle sample, or the mean of the two middle ones. |
| `Stats.SortBelow` | bench/overhead/stats.exs:23-25 | Sorting keeps pointwise domination of unsorted samples. |
| `Stats.PercentileBelow` | bench/overhead/stats.exs:19-25 | If each sample is at most the one beside it in another list, so is every percentile. |
| `Stats.IntervalInside` | bench/overhead/stats.exs:73-92 | For every random stream the bootstrap interval lies inside any bounds of the samples, is ordered for confidence at least 0 and reversed for confidence at most 0. |
| `Stats.IntervalBelow` | bench/overhead/stats.exs:78-92 | Both ends of the interval grow with the samples, for the same random stream. |
| `Stats.IntervalOfDraws` | bench/overhead/stats.exs:78-92 | The interval at confidence c is the percentiles (1 - c)/2 and (1 + c)/2 of 1000 medians, the j-th of them of the n samples at the draws j n to j n + n - 1 of the stream. |
| `Stats.SlowerComparesHigher` | bench/overhead/stats.exs:133-153 | Slowing the candidate in any samples lowers no figure of the comparison. |
| `Stats.ComparesPairwise` | bench/overhead/stats.exs:133-153 | The report has the medians and 95 percent intervals of the list of differences and of the list whose entries times the reference, or times 1 if that is more, are the candidate; the half-width times the median ratio is 50 times the width of its interval; no half-width if and only if that ratio is 0. |
| `Stats.ConstantRatio` | bench/overhead/stats.exs:60-63 | A candidate that takes q times its reference in every sample is reported with the ratio q, the interval (q, q), half-width 0 and overhead 100 q - 100 percent, for every random stream. |
| `Stats.ConstantDelta` | bench/overhead/stats.exs:56-58 | A candidate that takes d more than its reference in every sample is reported with the difference d and the interval (d, d). |
| `Stats.ComparisonWithin` | bench/overhead/stats.exs:133-153 | Bounds on the paired ratios bound the reported ratio and its interval, which is ordered, with no negative half-width. |
| `Stats.NeverFasterReportsAtLeastOne` | bench/overhead/stats.exs:133-153 | If every candidate sample is at least its reference sample, itself at least 1, the report has ratio and interval at least 1, no negative delta and no negative overhead. |
| `AttachmentBudget.FirstPassConserves` | bench/support/pmc.ex:215-258 | In each category the bytes kept and the bytes remaining add up to the budget, and so do their totals. |
| `AttachmentBudget.FirstPassMaximal` | bench/support/pmc.ex:230-258 | Only offered objects are kept, and each one dropped is larger than what is finally left in its category. |
| `AttachmentBudget.ServedInOrder` | bench/support/pmc.ex:230-258 | First come, first served: what the first i objects of an article keep stays in front, and object i is added if and only if its size is at most the budget less the bytes those keep in its category. |
| `AttachmentBudget.ArticlesInOrder` | bench/support/pmc.ex:215-218 | What the first i articles keep stays in front, and article i is served from each budget less the bytes those keep in that category. |
| `AttachmentBudget.SizeStated` | bench/support/pmc.ex:260-267 | A positive stated size is kept, without the mark of an estimate; otherwise the size is 2097152 for a pdf, 204800 for an image and 1048576 for the rest, with that mark. |
| `AttachmentBudget.FirstImageWins` | bench/support/pmc.ex:230-267 | Of two images without a stated size and a budget for one, the first is kept. |
| `AttachmentBudget.SpillConserves` | bench/support/pmc.ex:274-309 | The bytes taken by the spill and the bytes left are the pooled leftover. |
| `AttachmentBudget.SpillMaximal` | bench/support/pmc.ex:295-309 | Every unused object is taken or larger than the final leftover, and nothing else is taken. |
| `AttachmentBudget.SpilledInOrder` | bench/support/pmc.ex:274-309 | The spill serves in order too: unused object i is taken if and only if its size is at most the pooled leftover less the bytes taken from those before it. |
| `AttachmentBudget.UnusedHolds` | bench/support/pmc.ex:285-293 | Every object whose url its article did not choose is unused, and every unused object has an owner among the articles. |
| `AttachmentBudget.UnusedInOrder` | bench/support/pmc.ex:285-293 | The unused objects come article by article, each in the order offered and with its owner, without exactly those whose url the article chose. |
| `AttachmentBudget.ExtraInOrder` | bench/support/pmc.ex:311-318 | An article is given exactly the spilled objects of its pmcid, in their order. |
| `AttachmentBudget.MergeTotal` | bench/support/pmc.ex:311-328 | Merging adds the size of each spilled object once for every article with its owner's pmcid. |
| `AttachmentBudget.AssignConservesExactly` | bench/support/pmc.ex:207-328 | For all inputs, assigned bytes and final leftover are at least the three budgets together, and equal to them if and only if no object spilled to a repeated pmcid. |
| `AttachmentBudget.AssignConserves` | bench/support/pmc.ex:207-328 | With distinct pmcids, assigned bytes and final leftover are exactly the three budgets. |
| `AttachmentBudget.ConservesAlwaysExactly` | bench/support/pmc.ex:207-328 | For normalized articles: assignment conserves every budget if and only if no article offers anything while another one has its pmcid. |
| `AttachmentBudget.OffersNothingConserves` | bench/support/pmc.ex:311-328 | Any articles of which those with a repeated pmcid offer nothing conserve every budget. |
| `AttachmentBudget.AssignMaximal` | bench/support/pmc.ex:285-328 | With or without distinct pmcids, every attachment an article offers is finally held by url or larger than the final leftover. |
| `AttachmentBudget.AssignedArticle` | bench/support/pmc.ex:311-334 | Assignment changes an article's attachments and size only: these are the first pass's attachments followed by the objects spilled to its pmcid, and text, metadata and attachments together. |
| `AttachmentBudget.RepeatedIdExceedsBudget` | bench/support/pmc.ex:311-328 | Two articles with one pmcid and budgets of 3 bytes are assigned 4 bytes. |
| `Csv.ParseShape` | bench/support/csv.ex:15-38 | From any point of a line the parser ends in an open quote exactly when the quotes say so, and otherwise has one field per separator more. |
| `Csv.LineOutcome` | bench/support/csv.ex:5-19 | A line is skipped if and only if it trims to nothing, an error if and only if its number of quotes is odd, and otherwise has one field more than it has commas behind an even number of quotes. |
| `Csv.LineContents` | bench/support/csv.ex:4-38 | The fields of every line that is not empty and has an even number of quotes, by positions: a character belongs to the field numbered by the separators before it; separators are left out, and so is every quote that does not directly follow another one with an even number of them before it. |
| `Csv.TrimRemovesLineEnd` | bench/support/csv.ex:5-6 | Any carriage returns followed by any line feeds at the end are removed, and no more. |
| `Csv.RenderedParses` | bench/support/csv.ex:15-38 | Parsing a line of bare plain cells and quoted cells (section 2, rules 5 to 7 of RFC 4180) gives the cells' texts. |
| `Csv.RoundTrip` | bench/support/csv.ex:4-38 | A written line that is not empty and does not end in a break of its own is read back, with any line end. |
| `Csv.QuotedRoundTrip` | bench/support/csv.ex:4-38 | Every nonempty list of fields of any characters, fully quoted, is read back, with any line end. |
| `Csv.ReadBackExactly` | bench/support/csv.ex:4-38 | A written line is read back if and only if it is not empty and does not end in a line break. |
| `Select.ConsiderKeepsSmallest` | bench/support/select.ex:25-38 | Considering one more entry keeps the smallest min(count, seen) entries of the prefix, and raises nothing for new keys. |
| `Select.SmallestIsSortAndTake` | bench/support/select.ex:9-23 | For pairwise distinct keys the bounded selection is sorting everything and taking the first count items. |
| `Select.SmallestIgnoresOrder` | bench/support/select.ex:2-7 | The selection does not depend on the listing order. |
| `Select.SelectsExactly` | bench/support/select.ex:9-38 | The selection is sort-and-take for every order of listing the items and every count if and only if their keys are pairwise distinct. |
| `Select.SharedKeyMisses` | bench/support/select.ex:29-38 | When two items share a key, some listing and count is selected from otherwise, or raises. |
| `Select.SharedKeyDependsOnOrder` | bench/support/select.ex:29-38 | With one key for two items, the first one listed wins. |
| `Flags.ResolvedOnlyDefines` | bench/overhead/native.exs:286-293 | The resolved list undefines nothing. |
| `Flags.DefinedAs` | bench/overhead/native.exs:295 | A definition `name=body` names exactly `name`, for every name without `=` and every body, and means `body`; a name alone means 1. |
| `Flags.ResolveKeeps` | bench/overhead/native.exs:284-293 | A definition stays if and only if no later flag undefines its name. |
| `Flags.MeansStanding` | bench/overhead/native.exs:284-293 | After all flags a name means the body of one of its standing definitions, and nothing if and only if it has none. |
| `Flags.EffectiveExactly` | bench/overhead/native.exs:284-293 | All definitions in the resolved list are effective if and only if no name has two standing definitions with different bodies. |
| `Flags.RedefinitionStays` | bench/overhead/native.exs:284-293 | Defining A as 1 and then as 2 leaves the first definition in the list, without effect. |
| `Flags.ResolvedLookup` | bench/overhead/native.exs:284-293 | Every name means the same after resolving, except that a name whose last flag undefines it is as the compiler had it to begin with. |
| `Flags.ResolvePreservesExactly` | bench/overhead/native.exs:284-295 | Resolving preserves the macro map of a compiler that starts with given macros if and only if none of them is cancelled. |
| `Flags.ResolvePreserves` | bench/overhead/native.exs:284-295 | From no macros, the list means the same before and after resolving. |
| `SearcherCache.IndexWarming.Configure` | native/tantivy_ex/native/tantivy_ex/src/modules/index_warming.rs:117-151 | Succeeds if and only if strategy and policy are known names; then the limit is that many MiB, the policies are the named ones and the other settings those given; otherwise none changes. The accounts are untouched. |
| `SearcherCache.IndexWarming.WarmIndex` | native/tantivy_ex/native/tantivy_ex/src/modules/index_warming.rs:166-210 | Stores or overwrites the entry with the times given, no access and 1048576 bytes, and keeps the accounts, an overwriting recorded as one; nothing changes when the reader cannot be opened. |
| `SearcherCache.IndexWarming.GetSearcher` | native/tantivy_ex/native/tantivy_ex/src/modules/index_warming.rs:214-237 | Returns the cached searcher, counting a hit and the access and noting its time, or refuses, counting a miss and changing no entry; keeps the accounts. |
| `SearcherCache.IndexWarming.EvictCache` | native/tantivy_ex/native/tantivy_ex/src/modules/index_warming.rs:241-277 | Forced, empties the cache; otherwise an entry stays if and only if, under lru, its last access is at most `ttl_seconds` ago, and under ttl, its creation is; under the other policies all stay. Returns and counts how many went, and keeps the accounts. |
| `SearcherCache.IndexWarming.RetainUnexpired` | native/tantivy_ex/native/tantivy_ex/src/modules/index_warming.rs:259-272 | Whatever the order of visits, the retaining loop drops exactly the entries that the last access under lru, or the creation under ttl, puts more than `ttl_seconds` ago, leaves the others unchanged, and lowers the memory figure by the sizes dropped. |
| `SearcherCache.IndexWarming.ClearCache` | native/tantivy_ex/native/tantivy_ex/src/modules/index_warming.rs:312-324 | Empties the cache and keeps the accounts: all entries become evictions, and the memory figure starts over from zero. |
| `SearcherCache.CachedExactly` | native/tantivy_ex/native/tantivy_ex/src/modules/index_warming.rs:166-324 | After any run a key is cached if and only if some call warmed it and every later call left the entry: no warming of the key, no clear, no forced eviction, none under lru later than the time to live after its last use, none under ttl later than that after its creation. The entry has those times, the number of gets since and 1048576 bytes. |
| `SearcherCache.HitStays` | native/tantivy_ex/native/tantivy_ex/src/modules/index_warming.rs:214-277 | A searcher found at time t stays cached through every lru eviction up to the time to live after t, however old its entry is, as long as nothing is cleared, forced or evicted under ttl and no later warming or get of the key has an earlier time. |
| `SearcherCache.CountersExactly` | native/tantivy_ex/native/tantivy_ex/src/modules/index_warming.rs:166-237 | After any run: hits are the gets whose key was cached then, misses the other gets, and warmings and their time those of the calls that could open their index. |
| `SearcherCache.EvictAccounted` | native/tantivy_ex/native/tantivy_ex/src/modules/index_warming.rs:259-272 | An eviction with any snapshot of the configuration keeps the accounts, and its saturating subtraction never clips. |
| `SearcherCache.RunAccounted` | native/tantivy_ex/native/tantivy_ex/src/modules/index_warming.rs:166-324 | After any run: warmings = entries + evictions + overwritings; memory = sizes of the entries + one MiB per overwriting since the cache was last emptied; hits + misses = gets. |
| `SearcherCache.MemoryExactly` | native/tantivy_ex/native/tantivy_ex/src/modules/index_warming.rs:192-196 | The memory figure is that of the cached entries if and only if nothing was overwritten since the cache was last emptied. |
| `SearcherCache.OverwritingOverCounts` | native/tantivy_ex/native/tantivy_ex/src/modules/index_warming.rs:189-196 | Warming any key twice reports 2 MiB for 1 MiB of entries. |
| `CacheLocks.HeldAt` | native/tantivy_ex/native/tantivy_ex/src/modules/index_warming.rs:166-324 | An operation about to take a lock holds none, or the cache's on its way to the statistics', or the reverse for the report; none takes a lock it holds or releases one it does not. |
| `CacheLocks.RunSound` | native/tantivy_ex/native/tantivy_ex/src/modules/index_warming.rs:166-324 | In every state any number of threads can reach, each held lock has exactly the one holder whose actions say so. |
| `CacheLocks.DeadlockNeedsBothOrders` | native/tantivy_ex/native/tantivy_ex/src/modules/index_warming.rs:281-285 | Every group of threads that wait for one another has a report and an operation that takes the cache first. |
| `CacheLocks.BothOrdersDeadlock` | native/tantivy_ex/native/tantivy_ex/src/modules/index_warming.rs:281-285 | For each operation that takes the cache first there is a run in which it and a report wait for each other. |
| `CacheLocks.DeadlockFreeExactly` | native/tantivy_ex/native/tantivy_ex/src/modules/index_warming.rs:166-324 | For every set of operation kinds no run of any number of threads deadlocks if and only if the set does not mix the report with operations that take the cache first. |
| `CacheLocks.AdvanceShrinks` | native/tantivy_ex/native/tantivy_ex/src/modules/index_warming.rs:166-324 | Each lock action done removes exactly itself from the actions still to be done. |
| `CacheLocks.SomeThreadAdvances` | native/tantivy_ex/native/tantivy_ex/src/modules/index_warming.rs:166-324 | While the lock orders agree and lock actions remain, some thread can do its next one. |
| `CacheLocks.SchedulesShrink` | native/tantivy_ex/native/tantivy_ex/src/modules/index_warming.rs:166-324 | Every schedule of lock actions leaves exactly as many fewer pending as it is long. |
| `CacheLocks.AllFinish` | native/tantivy_ex/native/tantivy_ex/src/modules/index_warming.rs:166-324 | Every run of operations that agree on the lock order can go on, starting nothing new, until nothing is pending, in as many lock actions as were pending. |

## Left out

- The document engine under `lib/vial_keeper` (revisions, admission, replication, changes feed), except the parameter normalization of the connection.
- SQLite, Turso and Tantivy themselves: SQL execution is an abstract deterministic step, and preparing a statement or building a database object is a given success or failure.
- CancelProtocol, SharedDatabase and CacheLocks are step functions on values, because between any two steps of a thread all others act; update in place is in `SqliteConnection`, `DatabaseRegistry` and `SearcherCache`, for calls that are not interrupted (the busy handler is in two calls, before and after its sleep).
- SqliteConnection.Conn.Query: waiting for the mutex is not part of the call; it starts when the lock is granted. The same holds for SqliteConnection.Conn.Close.
- NativeProcess.Process.Grow: ids from 2^31 on are excluded, because the loop does not end there (`StatementTable.DoublingTerminatesExactly`).
- NativeProcess.Process.HandlePrepare: well-formed requests with such ids are excluded for the same reason.
- NativeProcess.Process.HandleRun: clock and VM step counts are parameters; reset statements, the row sink and scratch buffer are not modelled.
- BusyHandler.FirstOverflow: a build with overflow checks, which panics instead of wrapping, is not modelled; the release profile has none.
- Stats.IntervalInside: confidence values outside [-1, 1], for which a tail is no fraction, are excluded.
- Memory ordering: the protocols assume that atomic accesses are sequentially consistent. The interrupt handle of `cancel`, poisoned mutexes and resource destructors are not modelled.
- Text and blob lengths from 2^31 on, which the C code casts to a signed 32-bit length; NUL bytes inside SQL text; failing memory allocation; the 32-bit packet framing.
- Dates and times among connection parameters, which have no conversion in the driver replay; iolists are given as their flattening, floats as their bits.
- Turso `:memory:` databases, which are never shared; a failed build that nevertheless created its file; an open without creation whose file disappears between its check and the lock is an ordinary interleaving and is covered.
- The parse of grades that are no integers; the classification of attachments by name (the category is given) and of budgets (a missing or negative one is 0).
- Timed regions, garbage collection counters and the observer of the sampler; summaries, deviation and rounding of the statistics (rounding is the identity).
- Names of function-like macros: a macro's name ends at the first `=`, as in the source.
- Overflow of the cache's 64-bit counters; preload queries, which only sleep; the unenforced cache size limit and the policies without effect.
- The downloader's HTTP and file work, reports, command lines, the demo user interface, and the query, aggregation, tokenizer and schema builders of the Tantivy binding: thin wrappers with easy properties.
