# Kubernix, modelled and proved in Dafny

Kubernix is a multi-tenant Nix build frontend. This project models the parts of it whose correctness is hard to see
from the code, and proves what those parts are for:

- **Garbage collection** (`Trust`, `GcTables`, `GcMark`, `GcPass`, `GcRuns`): the tables as maps, the object store as a
  set of keys, each SQL statement or object-store call one step, a crash possible between any two, and pushes, build
  results and cross-tenant materialisations running beside the collector. The main results are that, key by key, no run
  loses the bytes of a row that is live or can be brought back to life, under a proviso on writes of that key that is
  shown to be exact; that marking equals reachability on any graph; and that one undisturbed pass repairs whatever
  crashes left.
- **Jobs** (`Jobs`, `JobLogs`): reservation by a partial unique index, stealing, late outcomes and orphan reclaim; log
  objects, which jobs of one derivation share, and the pass that retires them.
- **Capability secrets** (`Secrets`): rotation, pruning, lazy minting and per-replica caches as a timed machine, with
  the exact time for which a secret handed out stays verifiable.
- **Advisory lock** (`AdvisoryLocks`): the guard over a pool of sessions, with failed and abandoned statements.
- **Wire formats** (`Wire`, `Nar`, `NarCopy`, `Stderr`): layouts with don't-care padding, readers proved to accept
  exactly the bytes that match a layout, the archive copier and the stderr drain as classes over a stream.
- **Content addresses** (`StorePaths`, `NarSlack`): when two accepted pushes at one path must be the same content, and
  when the same archive.
- **Base32 and narinfo** (`Numerals`, `Base32`, `Strings`, `Narinfo`): a bit-level bijection, and a printer and parser that
  undo each other exactly on a stated set of inputs.
- **Relay** (`Relay`): the hold-one-chunk download relay.
- **Tiers** (`Tiers`, `PushRuns`): what pushes, build results and materialisations may do to a path's trust tier, its
  signatures and its object key, and how they are writes of the collector's machine.

`dafny verify dfyconfig.toml` checks all of it. Where the code updates state in place the model is a class or a method
with a loop, proved against a function; what matters is then proved about that function.

## How the code and its documentation differ

- `crates/server/src/postgres_store.rs:126-137` and `crates/server/src/rotate.rs:107-114` suggest that a secret answered
  as current at time t can be looked up until t + retention - 60 s. The cache stamp is taken after the read and
  `rotated_out_at` is the start of the rotating transaction, so the time both take is lost,
  and `retention.as_secs()` (`crates/server/src/rotate.rs:115`) drops a fraction of a second
  (`Secrets.DocumentedBoundExactly`, `Secrets.FractionIsLost`).
- `crates/server/src/advisory_lock.rs:1-2` promises that the lock never leaks into the pool. It does when the acquiring
  statement itself takes the lock and then fails on the client, because no guard exists yet
  (`AdvisoryLocks.LeakExactly`). Passes still never overlap.
- `crates/server/src/substitute.rs:333-342` promises that a mismatch never creates an object. It does when there is
  nothing to hold back, an empty body or an empty last chunk; the same goes for a decoder that fails at the end
  (`Relay.Fetch`, `Relay.UnfinishedBodyIsStored`).
- `crates/server/src/daemon_rpc.rs:1591-1602` promises that a path already vouched for is not demoted by a push. The
  tier lookup sees live rows only, so a row the collector has marked is demoted (`Tiers.DemotedExactly`).
- `crates/server/src/store_path.rs:154-156` says that only lower-case hexadecimal is accepted;
  `u8::from_str_radix` also takes upper case and a leading plus sign (`StorePaths.UnhexTakesMore`,
  `StorePaths.UnhexPrintsBackExactly`).
- `crates/server/src/gc.rs:396-405` promises a retry of every marked job log on the next pass. A reclaimed orphan has no
  log key; once it is marked, every pass ends at its scan, before the reap and the reclaim, until an outcome arrives for
  it (`JobLogs.StuckUntilAllReported`).
- The same lines promise that no log key is lost before its object is gone. An outcome for a row already purged does not
  reset its log state, and the object it names is then nobody's (`JobLogs.ReportedAfterPurgeIsStray`,
  `JobLogs.NoStrayExactly`).
- `crates/server/src/gc.rs:372-378` counts a log's retention from its own job's end. The key is the derivation's
  (`crates/server/src/store.rs:658-663`), so the log of a recent build goes when an older build of the same derivation
  falls due (`JobLogs.SharedLogIsLost`, `JobLogs.PresentLogExactly`).
- `crates/server/src/store.rs:599-606` promises that tenants share verified content only. The key of a build output is
  stored as the worker reports it (`crates/server/src/daemon_rpc.rs:470-481`), so the promise holds exactly while no step
  records a row under a key that another tenant's row names (`Tiers.SharingExactly`, `Tiers.ReportedForeignKeyIsShared`).
  That takes a wrong key reported by a worker (`Tiers.IntrusionNeedsWrongKey`); one that nobody else names does no harm.
- `crates/server/src/postgres_store.rs:127-131` calls a cached secret that was deleted a little more lenient. There is no
  eviction: a replica that cached it goes on finding it until it restarts (`Secrets.SupersededLookupExactly`).
- The branch at `crates/signing/src/base32.rs:66-71` is never taken: `Base32.TopDigitInside`. The model has no such branch.

## Model

| member | source | states |
|---|---|---|
| `GcTables.DrainInAnyOrder` | crates/server/src/gc.rs:223-248 | draining the queue in batches of any size and order leaves every row as one drain of the whole queue does |
| `GcTables.DrainEffects` | crates/server/src/gc.rs:236-241 | a row nobody accessed is as it was; an accessed one keeps tier, references and key, its recency is the latest of its own and the claimed accesses, a marked one is live with its mark cleared, and a purging one goes on purging |
| `GcTables.DrainTwice` | crates/server/src/gc.rs:213-222 | two drains are the drain of both batches |
| `GcTables.LatestIsLatest` | crates/server/src/gc.rs:233-235 | the folded time is an access of that path and no access of it is later |
| `GcMark.FreshSet` | crates/server/src/gc.rs:271-282 | the worklist's result is exactly the set of rows reachable through same-tenant references from a live row within its cutoff, cycles and dangling references included |
| `GcMark.SurvivorsExactly` | crates/server/src/gc.rs:264-300 | a live row outside `substituted` stays live exactly when it is within its cutoff or reachable from a live row that is; a substituted row always does |
| `GcMark.MarkLeavesRest` | crates/server/src/gc.rs:283-291 | rows not live are left as they were, and a marked one keeps all but its state and mark time |
| `GcMark.LoneRowMarkedExactly` | crates/server/src/gc.rs:266-288 | each tier goes by its own cutoff, to the second, and `substituted` by none |
| `GcMark.RecordedSurvivesMark` | crates/server/src/postgres_store.rs:498-526 | a path recorded within its tier's cutoff is not marked, and keeps its live references from it |
| `GcMark.ReferencesSurvive` | crates/server/src/gc.rs:250-263 | no surviving row outside `substituted` loses a live reference |
| `GcMark.SubstitutedRowLosesReference` | crates/server/src/gc.rs:266-270 | a substituted row is no root: what only it references can be marked |
| `GcPass.ClaimOldest` | crates/server/src/gc.rs:225-232 | what is claimed is the oldest part of the queue, up to the batch size, and what remains is the rest of it as a multiset |
| `GcPass.Collector.DrainAccessQueue` | crates/server/src/gc.rs:223-248 | claims up to a batch, folds exactly the claimed accesses into the rows, leaves the rest queued |
| `GcPass.Collector.MarkExpired` | crates/server/src/gc.rs:264-300 | marks exactly the expired unreachable live rows and counts them |
| `GcPass.Collector.SweepKey` | crates/server/src/gc.rs:332-355 | one turn: tombstone, delete the bytes, and only after success delete the `objects` row |
| `GcPass.Collector.SweepAndReap` | crates/server/src/gc.rs:314-370 | the loop and the reap leave the tables `Collected` describes, for every outcome of every deletion, and count what they removed |
| `GcPass.SweptKeyStep` | crates/server/src/gc.rs:335-354 | sweeping one more key extends the swept set by that key, in any order |
| `GcPass.CompletePass` | crates/server/src/gc.rs:314-370 | from any tables that satisfy the foreign key, a pass whose deletes succeed keeps every live row as it was, leaves an `objects` row exactly for the keys live rows name, and no other row names a key without one |
| `GcPass.SweepSparesLiveBytes` | crates/server/src/gc.rs:321-346 | a sweep removes no bytes that a live row names |
| `GcPass.ReapedExactly` | crates/server/src/gc.rs:360-365 | which rows a pass removes, whatever its deletes come to; one whose delete failed stays |
| `GcPass.AccessedPathSurvives` | crates/server/src/gc.rs:213-248 | a path, marked or not, with an access claimed within its cutoff is live after the whole pass, with its key and bytes, whatever the pass deletes or fails to |
| `GcPass.KeylessMarkedRowStays` | crates/server/src/gc.rs:336-365 | a marked row without a key is neither tombstoned nor reaped by any pass |
| `GcRuns.InitialInv` | crates/server/src/gc.rs:314-370 | the empty store satisfies the invariant of every run |
| `GcRuns.CollectorKeepsFor` | crates/server/src/gc.rs:223-370 | every collector statement, failed delete and crash keeps a key's invariant when the collector is in the way of no pending write of that key |
| `GcRuns.WriterKeepsFor` | crates/server/src/daemon_rpc.rs:1640-1715 | so does every step of every write, of that key or another |
| `GcRuns.KeyIsSafe` | crates/server/src/gc.rs:223-370 | key by key: in every run in which the collector is in the way of no pending write of `k`, whatever overlaps on other keys, every live or marked row naming `k` has its bytes and keeps its key, and bytes under `k` that nobody can name are those of a write that died since `k` was last recorded or erased |
| `GcRuns.RunsAreSafe` | crates/server/src/gc.rs:223-370 | all keys together: in every run in which that holds of every key, every live or marked row names a key whose bytes exist |
| `GcRuns.NotClearIsUnsafe` | crates/server/src/daemon_rpc.rs:1657-1690 | the proviso is exact: from any state in which it fails for a key, for a write at any stage, some continuation ends with that write's own row live and without bytes |
| `GcRuns.InTheWayIsUnsafe` | crates/server/src/daemon_rpc.rs:1657-1690 | the same for a push that begins in such a state |
| `GcRuns.PassIsARun` | crates/server/src/gc.rs:314-370 | the method's pass is a run of the step machine, for every outcome of every deletion |
| `GcRuns.OnePassSettles` | crates/server/src/gc.rs:302-313 | from any state crashes can leave, one undisturbed pass leaves an `objects` row for a key exactly when a live row names it, and every row still marked or purging names such a key |
| `GcRuns.AccessedRowIsRunSafe` | crates/server/src/gc.rs:178-180 | over a run: a marked row accessed before the scan is live after the drain and has its bytes after the pass that follows |
| `Jobs.NextKeepsTable` | crates/server/src/postgres_store.rs:1144-1167 | every statement keeps one running row per tenant and derivation, and no running row carries a finish time, a log key or a swept log |
| `Jobs.ReserveExactly` | crates/server/src/postgres_store.rs:1153-1167 | what a reservation comes to is settled by the table: inserted exactly into a vacant slot under a new id, a conflict exactly with a holder within retention, a steal exactly of one past it |
| `Jobs.StaleSlotIsTaken` | crates/server/src/postgres_store.rs:1102-1114 | every reservation of a slot whose holder is past retention takes it over, under the new id, and leaves the rest alone |
| `Jobs.OutcomeIsRecorded` | crates/server/src/postgres_store.rs:1279-1300 | an outcome is recorded as reported under its id, other rows stay, and reporting it again changes nothing but the finish time |
| `Jobs.ReclaimedExactly` | crates/server/src/gc.rs:475-493 | a reclaim fails exactly the running rows older than its cutoff |
| `Jobs.StandsUntilEnded` | crates/server/src/postgres_store.rs:1144-1218 | a reservation that took a row stands, under its id and time, until its own outcome or a statement that finds it past retention |
| `Jobs.ReservationsAreSeparated` | crates/server/src/postgres_store.rs:1144-1218 | in every run two reservations of one derivation that each took a row are separated by such a step |
| `Jobs.OneBuildPerRetention` | crates/server/src/gc.rs:475-493 | with one retention throughout, either the first reservation's outcome lies between them or more than the retention does |
| `Jobs.SlotFreedExactly` | crates/server/src/postgres_store.rs:1288-1300 | a held slot becomes free exactly by its holder's outcome or by a reclaim that finds the holder past its cutoff |
| `Jobs.LateOutcomeIsHarmless` | crates/server/src/postgres_store.rs:1279-1300 | an outcome for another id, a stolen one included, changes nothing in a reservation's row and creates no running row |
| `JobLogs.UnblockedExactly` | crates/server/src/gc.rs:407-414 | before its scan, a stuck pass becomes unstuck exactly by an outcome for the only marked row without a key |
| `JobLogs.StuckUntilAllReported` | crates/server/src/gc.rs:182-186 | in every run, no pass deletes or purges a log, reaps a row or reclaims a stuck reservation before an outcome has arrived for every marked row without a key |
| `JobLogs.OrphanBlocksPass` | crates/server/src/gc.rs:475-493 | every running row that is reclaimed and then marked is such a row |
| `JobLogs.ReapedExactly` | crates/server/src/gc.rs:182-186 | a finished row goes in a pass exactly when the pass is not stuck, the row is past its retention and its log was swept before or is now, which takes the log's retention and a successful delete |
| `JobLogs.PresentLogSurvivesExactly` | crates/server/src/gc.rs:407-437 | a log that is not due survives a pass exactly when the pass is stuck or no other row with the same key is due and deleted |
| `JobLogs.LogKeysEqualExactly` | crates/server/src/store.rs:658-663 | two jobs share a log key exactly when they are of one tenant and derivation hash |
| `JobLogs.LetGoExactly` | crates/server/src/gc.rs:425-460 | a row lets go of its key exactly by an outcome with another key, its purge, or its reap |
| `JobLogs.NoLogIsLost` | crates/server/src/gc.rs:379-460 | in every run with crashes, whatever is reported of other jobs, a row whose own outcomes so far agree on its key and skip it once purged gives up that key only by the purge that follows a successful delete made for that very row and key, with nothing of the pass in between |
| `JobLogs.ForgottenExactly` | crates/server/src/postgres_store.rs:1279-1300 | when a job ceases to keep track of a log object, step by step |
| `JobLogs.NoStrayExactly` | crates/server/src/gc.rs:396-405 | over every run, no log object is ever left that no unpurged row and no pending upload names, if and only if no step strands one |
| `JobLogs.OrderlyKeyIsTracked` | crates/server/src/gc.rs:396-405 | key by key: a log object is never lost track of while the jobs that share its key report settled outcomes, give none up, and upload nothing between its delete and its purge, whatever happens to other keys |
| `JobLogs.ReportedAfterPurgeIsStray` | crates/server/src/postgres_store.rs:1288-1300 | an outcome for a purged row leaves its new log to nobody, since it does not reset the log state |
| `JobLogs.PresentLogExactly` | crates/server/src/gc.rs:407-437 | in every run, a log within its retention is there throughout exactly when no sweep deletes its key for another job |
| `JobLogs.SharedLogIsLost` | crates/worker/src/upload.rs:71-76 | seven steps after which a log one second old is gone because an older build of the same derivation fell due |
| `JobLogs.LogCollector.SweepJobLogs` | crates/server/src/gc.rs:407-437 | does nothing exactly when a marked row has no key, and otherwise purges exactly the marked rows whose own delete succeeds, removes exactly the objects deleted, and counts |
| `JobLogs.LogCollector.RunJobPass` | crates/server/src/gc.rs:182-186 | mark, sweep, reap, reclaim, ending after a failed sweep |
| `JobLogs.JobPassIsARun` | crates/server/src/gc.rs:182-186 | an undisturbed pass, stuck or not and for every outcome of every delete, is a run of the step machine |
| `Jobs.JobStore.ReserveStatement` | crates/server/src/postgres_store.rs:1153-1168 | inserts, steals, conflicts or fails on a duplicate id, in exactly the cases the statement distinguishes; conflicts exactly within retention |
| `Jobs.JobStore.ReserveJob` | crates/server/src/postgres_store.rs:1122-1219 | over any interleaving with other sessions: a win with a row left that row; a loss met a holder within retention and names a row that holds the slot; a win without a row met two such holders that were both gone at the second look |
| `Secrets.NextKeepsTable` | crates/server/src/rotate.rs:78-124 | the highest-kid row is never retired, kids are never handed out twice, and a filled table stays filled, over every step |
| `Secrets.NextKeepsKids` | crates/server/src/postgres_store.rs:126-135 | no kid means two secrets in any row, cache or read in flight |
| `Secrets.RunKeepsInv` | crates/server/src/postgres_store.rs:1321-1415 | the three invariants hold in every state of every run |
| `Secrets.AnsweredSecretIsFound` | crates/server/src/postgres_store.rs:1321-1415 | a persisted secret answered as current at t is in the table and found by every replica until t + retention - 60 s less what one read and one rotation may take |
| `Secrets.BoundExactly` | crates/server/src/postgres_store.rs:1321-1387 | that bound is tight: over all runs the secret is found for a span after the answer if and only if the span is within it, or negative |
| `Secrets.DocumentedBoundExactly` | crates/server/src/rotate.rs:107-124 | the bound t + retention - 60 s holds over all runs if and only if reads and rotations take no time and the retention is in whole seconds |
| `Secrets.FractionIsLost` | crates/server/src/rotate.rs:115 | a retention of 100.5 s fails it with no time lost otherwise |
| `Secrets.SlowRead` | crates/server/src/postgres_store.rs:1331-1387 | for every span beyond the bound, a run in which the secret is missing within it |
| `Secrets.SupersededSecretExpires` | crates/server/src/rotate.rs:78-124 | a rotation leaves its row the only current one, and a row it retired is out of the table for good after any prune later than its start plus the retention |
| `Secrets.LookupEndsExactly` | crates/server/src/postgres_store.rs:126-135 | over every run, a kid out of the table goes on being found by a replica exactly if it had it cached and has not restarted |
| `Secrets.SupersededLookupExactly` | crates/server/src/postgres_store.rs:126-135 | so after that prune exactly the replicas that have a superseded secret cached go on finding it, until they restart |
| `Secrets.EphemeralStaysLocal` | crates/server/src/postgres_store.rs:1370-1377 | a process-local kid is found by a replica exactly when its own cache holds it |
| `Secrets.SecretStore.RotateLocked` | crates/server/src/rotate.rs:65-132 | a rotation step and a prune step of the machine, with the numbers of rows each changed |
| `Secrets.SecretStore.Newest` | crates/server/src/postgres_store.rs:1331-1333 | the highest kid, or nothing exactly when the table is empty |
| `Secrets.SecretStore.CurrentSecret` | crates/server/src/postgres_store.rs:1321-1387 | one cache hit exactly when the cache is younger than 60 s, otherwise the newest row, the generated secret stored under the next kid, or the generated secret under a process-local kid, in that order of fallback, and then cached; its answer is the last step's |
| `Secrets.SecretStore.SecretByKid` | crates/server/src/postgres_store.rs:1389-1415 | the machine's lookup, cached on success, and the cache alone when the database fails |
| `AdvisoryLocks.RunKeepsInv` | crates/server/src/advisory_lock.rs:45-97 | in every run each guard owns a lent connection of its own, locks are held by live sessions only, and only guarded connections carry the close mark |
| `AdvisoryLocks.PassesNeverOverlap` | crates/server/src/gc.rs:157-168 | in every run, with failures, abandoned statements and lost sessions, two grants of one key are separated by the end of the first one's pass |
| `AdvisoryLocks.PoolStaysFree` | crates/server/src/advisory_lock.rs:72-97 | key by key: no idle connection holds that lock in any run without a leaking acquisition of it, whatever leaks of others |
| `AdvisoryLocks.LeakExactly` | crates/server/src/advisory_lock.rs:45-54 | from such a state a step leaves the pool free of that lock if and only if it is not an acquisition that took it and then failed |
| `AdvisoryLocks.ReleaseFrees` | crates/server/src/advisory_lock.rs:72-82 | a successful release frees the key for every session |
| `AdvisoryLocks.UnlockUndoes` | crates/server/src/advisory_lock.rs:10-12 | an unlock undoes a granted lock, also one taken again, and no other session can |
| `AdvisoryLocks.LockPool.TryAcquire` | crates/server/src/advisory_lock.rs:45-61 | a guard exactly when no session holds the key, the connection back in the pool when one does, an error when the session is gone or the statement fails; the pool stays clean of every key but one a failed statement took |
| `AdvisoryLocks.LockPool.Release` | crates/server/src/advisory_lock.rs:72-82 | the unlock and drop steps; a failed unlock closes the connection |
| `AdvisoryLocks.LockPool.Drop` | crates/server/src/advisory_lock.rs:85-97 | a guard dropped unreleased closes its connection |
| `Wire.WordRoundTrip` | crates/daemon-protocol/src/wire.rs:41-84 | reading eight little-endian bytes gives the number written |
| `Wire.WordOfBytes` | crates/daemon-protocol/src/wire.rs:80-84 | every eight bytes are the encoding of the number they read as |
| `Wire.SmallWord` | crates/daemon-protocol/src/wire.rs:41-43 | the least significant byte comes first |
| `Wire.PaddingRoundsUp` | crates/types/src/wire.rs:19-22 | padding is less than a word and rounds up to whole ones |
| `Wire.ReadStrExact` | crates/daemon-protocol/src/wire.rs:86-98 | a string read succeeds with given bytes and end exactly when the stream matches its length, bytes and padding there |
| `Nar.ParseNodeExact` | crates/daemon-protocol/src/nar.rs:91-142 | the node grammar accepts a tree up to a position exactly when the bytes match that tree's layout, whatever the padding holds |
| `Nar.ParseArchiveExact` | crates/daemon-protocol/src/nar.rs:44-52 | the same for a whole archive |
| `Nar.ArchiveIsAccepted` | crates/daemon-protocol/src/nar.rs:42-52 | every tree of any depth, width and contents, at any place and before any trailing bytes, is accepted up to exactly its end |
| `Nar.AcceptedIsArchive` | crates/daemon-protocol/src/nar.rs:44-142 | whatever is accepted is one tree's serialisation up to padding, of that serialisation's length |
| `Nar.NoPrefixAccepted` | crates/daemon-protocol/src/nar.rs:42-43 | no proper prefix of an accepted archive is accepted |
| `Nar.SerialiseInjective` | crates/daemon-protocol/src/nar.rs:91-142 | two trees with one serialisation are one tree |
| `Nar.FrameWordsAre` | crates/daemon-protocol/src/nar.rs:30-52 | the words that frame nodes and entries, byte by byte |
| `Nar.KindWordsAre` | crates/daemon-protocol/src/nar.rs:104-121 | those of the node types |
| `Nar.FieldWordsAre` | crates/daemon-protocol/src/nar.rs:105-135 | those of a node's fields |
| `Nar.UnknownTypeIsReported` | crates/daemon-protocol/src/nar.rs:137 | a node of another type fails with that type |
| `NarCopy.Copier.CopyU64` | crates/daemon-protocol/src/nar.rs:54-62 | the number read is the number written |
| `NarCopy.Copier.CopyStr` | crates/daemon-protocol/src/nar.rs:67-75 | the string read is appended with its length and zero padding |
| `NarCopy.Copier.CopyPadded` | crates/daemon-protocol/src/nar.rs:148-171 | the chunked loop copies exactly the contents and zero padding |
| `NarCopy.Copier.CopyEntries` | crates/daemon-protocol/src/nar.rs:121-136 | the directory loop consumes and copies exactly a list of entries and its closing parenthesis |
| `NarCopy.Copier.CopyNode` | crates/daemon-protocol/src/nar.rs:91-142 | consumes exactly what the grammar accepts and appends that node's zero-padded form |
| `NarCopy.Copier.CopyNar` | crates/daemon-protocol/src/nar.rs:44-52 | succeeds exactly when an archive starts at the reader, leaves the reader at its end and the sink extended by its canonical serialisation |
| `NarCopy.RegularFileContents` | crates/server/src/store_path.rs:310-349 | computes the contents token by token |
| `NarCopy.FileContentsAgrees` | crates/server/src/store_path.rs:298-332 | on every accepted archive, the contents of a regular file and nothing for a directory or symlink |
| `NarCopy.FileContentsOfTree` | crates/server/src/store_path.rs:298-332 | the same for the serialisation of every tree |
| `NarSlack.TokensAreContents` | crates/server/src/store_path.rs:310-332 | the contents reader accepts every archive whose tokens are those of a file, with any string after the flag, any padding and anything trailing |
| `NarSlack.ContentsTokens` | crates/server/src/store_path.rs:310-332 | and no other |
| `NarSlack.TokenStands` | crates/server/src/store_path.rs:335-349 | a token stands wherever its length and bytes do, padding or not |
| `Stderr.ReadFieldsExact` | crates/daemon-protocol/src/connection.rs:487-504 | a field list is read exactly when the bytes match its layout |
| `Stderr.ReadErrorExact` | crates/daemon-protocol/src/connection.rs:506-521 | an error payload, traces included, is read exactly when the bytes match its layout |
| `Stderr.ReadSignalExact` | crates/daemon-protocol/src/connection.rs:403-470 | a frame of any kind is read exactly when the bytes match its layout |
| `Stderr.DrainReaches` | crates/daemon-protocol/src/connection.rs:403-470 | a stream of frames closed by a final frame is drained through all of them in order, to the end of the last or to the remote error |
| `Stderr.DrainSound` | crates/daemon-protocol/src/connection.rs:403-470 | whenever the drain succeeds, what it consumed is frames closed by the last frame |
| `Stderr.DrainStopsAtReply` | crates/daemon-protocol/src/connection.rs:389-397 | after encoded frames and the last one, followed by any bytes, the drain stops exactly at those bytes |
| `Stderr.Client.DrainStderr` | crates/daemon-protocol/src/connection.rs:403-470 | the loop's log gains, in order, each NEXT line and each build-log result's leading string, also when it ends in an error |
| `Stderr.LinesGrow` | crates/daemon-protocol/src/connection.rs:413-463 | what each frame adds to the log: a NEXT frame its line, a result of type 101 its leading string, others nothing |
| `Stderr.NumbersSpell` | crates/daemon-protocol/src/connection.rs:29-34 | the frame numbers spell their names |
| `Stderr.UnknownTagIsReported` | crates/daemon-protocol/src/connection.rs:467 | any other number fails with that number |
| `StorePaths.UnhexHex` | crates/server/src/store_path.rs:157-165 | parsing a printed digest gives it back |
| `StorePaths.UnhexPrintsBackExactly` | crates/server/src/store_path.rs:154-165 | what parses prints back to itself if and only if it is lower-case hexadecimal throughout |
| `StorePaths.UnhexTakesMore` | crates/server/src/store_path.rs:161-164 | "+A" parses, as ten |
| `StorePaths.VerifyExactly` | crates/server/src/store_path.rs:248-295 | a push is accepted exactly when its address is a sha256 of what its method hashes, a flat one without references, at the path that follows; and otherwise which check fails first, and with what |
| `StorePaths.HonestPushIsAccepted` | crates/server/src/store_path.rs:95-151 | every honest push, of any method, content, references and name without a slash, is accepted at its path |
| `StorePaths.NameOfExactly` | crates/types/src/store_path.rs:78-83 | a name exactly behind 32 bytes and a dash, and not empty |
| `StorePaths.HashPartExactly` | crates/types/src/store_path.rs:85-90 | a hash part exactly if what precedes the first dash is 32 bytes |
| `StorePaths.FixedOutputNames` | crates/server/src/store_path.rs:188-199 | outputs but `out` are named after derivation and output, and only malformed hexadecimal has no path |
| `StorePaths.FixedOutputDeterminesAll` | crates/server/src/store_path.rs:131-148 | the text of a fixed output gives away method, algorithm and hash |
| `StorePaths.RefSuffixInjective` | crates/server/src/store_path.rs:83-93 | colon-free reference lists are told apart by their text |
| `StorePaths.TypeDetermines` | crates/server/src/store_path.rs:102-151 | the type text determines the method and the text of the references, whatever those contain |
| `StorePaths.OnePathOneContent` | crates/server/src/store_path.rs:248-295 | two pushes accepted at one path, with no collision among the texts hashed, agree on method, hashed content and the text of the references, whatever the references are |
| `StorePaths.OnePathOneReferencesExactly` | crates/server/src/store_path.rs:248-295 | they agree on the references when none has a colon, and beside a push whose references have no separator exactly when the other's have none |
| `StorePaths.OneHashPartOneContent` | crates/server/src/postgres_store.rs:733-740 | two accepted pushes whose paths share a hash part are at one path, so the same holds, under any store directory with a slash; without one, when neither it nor a reference has a colon |
| `StorePaths.ColonReferencesMeetNames` | crates/server/src/store_path.rs:72-93 | that condition is not idle: two different names share a description under every digest |
| `NarSlack.ArchivesAgreeExactly` | crates/server/src/store_path.rs:310-349 | two archives with the same file contents are the same bytes exactly when the executable flag, the string after it, the padding and the trailing bytes agree |
| `StorePaths.OnePathOneArchiveExactly` | crates/server/src/store_path.rs:248-295 | so two pushes accepted at one path carry one archive always when recursive, and otherwise exactly under that condition |
| `StorePaths.CanonicalArchivesAgreeExactly` | crates/server/src/store_path.rs:248-295 | among archives a writer produces, exactly when the executable flags agree |
| `StorePaths.UnambiguousExactly` | crates/server/src/store_path.rs:79-93 | a reference list can be told from every separator-free list exactly when it contains no separator itself |
| `StorePaths.ColonReferencesCollide` | crates/server/src/store_path.rs:79-93 | two different lists with colons have one path under every digest |
| `StorePaths.FixedOutputAgrees` | crates/server/src/store_path.rs:181-200 | a fixed-output derivation declaring the hash of accepted content gets the path it was accepted at |
| `Base32.Encode` | crates/signing/src/base32.rs:13-34 | the loop over bit windows prints the base-32 digits of the number the bytes denote |
| `Base32.WindowIsDigit` | crates/signing/src/base32.rs:21-31 | the shifted, or-ed and masked window is the digit of that number |
| `Base32.TopDigitInside` | crates/signing/src/base32.rs:63-71 | no digit's first byte lies outside the buffer, so the guarded branch is dead |
| `Base32.PutDigit` | crates/signing/src/base32.rs:60-79 | or-ing one digit into the buffer adds it to the number, or the number cannot fit |
| `Base32.Decode` | crates/signing/src/base32.rs:48-81 | succeeds exactly on strings of the right length and alphabet whose number fits, with that number's bytes |
| `Base32.EncodedValue` | crates/signing/src/base32.rs:13-34 | the text and the bytes denote one integer |
| `Base32.DecodeEncode` | crates/signing/src/base32.rs:41-81 | decoding an encoding gives the bytes back |
| `Base32.EncodeDecode` | crates/signing/src/base32.rs:41-81 | whatever decodes is the encoding of what it decodes to, with one integer on both sides |
| `Base32.EncodedInjective` | crates/signing/src/base32.rs:13-34 | no two byte strings of one length have one text |
| `Base32.ValidWhenCoded` | crates/signing/src/base32.rs:36-39 | every nonempty encoding, and every nonempty string that decodes, is valid |
| `Base32.AlphabetExactly` | crates/signing/src/base32.rs:3-11 | the alphabet: digits and lower-case letters but `e`, `o`, `t` and `u` |
| `Base32.OneByteText` | crates/signing/src/base32.rs:20-32 | the most significant digit comes first |
| `Narinfo.Render` | crates/server/src/http.rs:212-253 | the printer writes exactly the listed lines, one per signature, in order |
| `Strings.AfterLast` | crates/server/src/http.rs:257-259 | the part after the last slash, or all of it when there is none |
| `Narinfo.Parse` | crates/server/src/substitute.rs:414-458 | the loop computes the fold of one line after another, and fails on the first missing field |
| `Narinfo.ParsedIsTidy` | crates/server/src/substitute.rs:424-446 | whatever text is parsed, every field found is one trimmed line, every reference a word, the hash 32 bytes |
| `Narinfo.RoundTripExactly` | crates/server/src/http.rs:212-253 | the parser recovers every field the printer wrote if and only if each is one trimmed line, each reference a word and the hash 32 bytes |
| `Narinfo.ParseExactly` | crates/server/src/substitute.rs:414-458 | on any text: which required field is missing first, and otherwise each field's last value, all signatures in order and the words of the last references there are |
| `Narinfo.FileFieldsAreRendered` | crates/server/src/http.rs:229-233 | a client finds the file's hash and size, once each |
| `Narinfo.FullPathRoundTrip` | crates/types/src/store_path.rs:47-55 | a printed path reads back under its own directory, and only it does |
| `Relay.Forward` | crates/server/src/substitute.rs:343-358 | what is sent trails what was decoded by the pending chunk, and the loop fails exactly on a bad or undecodable chunk or an upload that ends early, and says which |
| `Relay.VerifyAndForward` | crates/server/src/substitute.rs:333-373 | verified exactly when all arrives, decodes and hashes as claimed; then the whole body was sent in order, else only what precedes the held chunk |
| `Relay.EarlyIsStrictPrefix` | crates/server/src/substitute.rs:335-342 | with no empty chunk, what was sent before the hash check is a prefix of the body short of the declared length |
| `Relay.Fetch` | crates/server/src/substitute.rs:328-377 | an object created from a nonempty body without empty chunks is the whole body and verified; a mismatch or a decoder failing at the end creates one exactly when the last chunk held nothing; any failure exactly when what it had sent is as long as declared |
| `Relay.UnfinishedBodyIsStored` | crates/server/src/substitute.rs:359-362 | a body whose decoder fails at the end and whose last chunk is empty is stored and refused |
| `Tiers.DemotedExactly` | crates/server/src/daemon_rpc.rs:1523-1634 | a row at a vouchable tier loses it exactly when it is deleted or an unverifiable push lands while the row is not live or its tier cannot be read |
| `Tiers.MarkedRowIsDemoted` | crates/server/src/postgres_store.rs:876-895 | a marked build output pushed without an address ends up quarantined and unsigned |
| `Tiers.LiveIsNotDemoted` | crates/server/src/daemon_rpc.rs:1591-1606 | a live row whose tier can be read is demoted by no step |
| `Tiers.VouchableStays` | crates/server/src/daemon_rpc.rs:431-569 | over every run without such a step, a vouchable path stays vouchable |
| `Tiers.BackedExactly` | crates/server/src/daemon_rpc.rs:1657-1715 | a step keeps uploaded bytes behind every row and object exactly when it is no build result naming an object nobody put; a push puts what it records, or finds it |
| `Tiers.BackedRunsExactly` | crates/server/src/daemon_rpc.rs:1684-1690 | the same over every run |
| `PushRuns.PushIsARun` | crates/server/src/daemon_rpc.rs:1640-1715 | a push, with all that may fail in it, is a write of the collector's machine: looked up if verified, uploaded unless found, and only then recorded |
| `PushRuns.MaterialiseIsARun` | crates/server/src/daemon_rpc.rs:544-569 | so is a materialisation |
| `Tiers.RejectingTenantIsClean` | crates/server/src/daemon_rpc.rs:1536-1589 | in every run a tenant that rejects unverifiable pushes never holds an unvouchable row, and a push whose address fails the check changes nothing |
| `Tiers.OtherTenantsUntouched` | crates/server/src/daemon_rpc.rs:534-569 | no step changes another tenant's rows |
| `Tiers.OnlyVouchableRowsAreSigned` | crates/server/src/daemon_rpc.rs:490-532 | a new signature on a row that did not come from the client is on a vouchable row |
| `Tiers.PushSignatures` | crates/server/src/daemon_rpc.rs:1692-1696 | an unverified push keeps the client's signatures only; a verified one gains at most the tenant's own |
| `Tiers.MaterialisedSignatures` | crates/server/src/daemon_rpc.rs:544-569 | a materialised row has the source's path and object, no signature but the tenant's own, and is itself verified |
| `Tiers.NarKeysEqualExactly` | crates/server/src/store.rs:621-635 | two keys are equal exactly for one hash and tier and, unless verified, one tenant |
| `Tiers.NarKeyText` | crates/server/src/store.rs:621-635 | the keys in full |
| `Tiers.UrlOfKey` | crates/server/src/http.rs:224-227 | whatever the tier, a rendered narinfo points at the one file of its hash part |
| `Tiers.BuiltAllInPlaceExactly` | crates/server/src/daemon_rpc.rs:452-486 | a recorded batch leaves every row under its own key exactly when each output it last writes reports its own key, which nothing checks |
| `Tiers.KeysInPlaceExactly` | crates/server/src/daemon_rpc.rs:452-486 | over every run, all rows stay under their own keys if and only if every recorded build result does that |
| `Tiers.SharedExactly` | crates/server/src/store.rs:599-635 | two rows each under their own key name one object exactly under that condition |
| `Tiers.NextKeepsOthers` | crates/server/src/daemon_rpc.rs:431-569 | whatever workers report, only rows of build results are ever under another key than their own |
| `Tiers.SharingExactly` | crates/server/src/store.rs:599-606 | over every run, tenants share verified content only if and only if no step records a row under a key another tenant's row already names, unless both are verified |
| `Tiers.IntrusionNeedsWrongKey` | crates/server/src/daemon_rpc.rs:452-486 | such a step takes a build result with a key not its own, this one or one still there |
| `Tiers.InPlaceSharesVerifiedOnly` | crates/server/src/store.rs:599-635 | where all rows are under their own keys, tenants share verified content only |
| `Tiers.ReportedForeignKeyIsShared` | crates/server/src/daemon_rpc.rs:470-481 | a build result reporting another tenant's quarantined key is recorded, and the two tenants share that object |
| `Tiers.Frontend.Finalize` | crates/server/src/daemon_rpc.rs:1523-1733 | exactly when a push is stored, in terms of its address, the tenant's row, the upload and the record, under which key, with its bytes put or the verified object known; exactly when it is kept; and what is staged |
| `Tiers.Frontend.RecordOutputs` | crates/server/src/daemon_rpc.rs:431-488 | records all outputs or, when any lies outside the job's set, none, and reports those |
| `Tiers.Frontend.ResolveVerified` | crates/server/src/daemon_rpc.rs:544-569 | answers with a live row of the tenant's own, materialising it from a live verified row with an object if there is one, and exactly when it answers nothing |

## Left out

- A put that fails on the client and yet took effect: in `Tiers` a failed put leaves no bytes.
- SSH, TLS, HTTP routing, NATS, the object store's protocol, Cap'n Proto and the guest side: foreign I/O. The object store is a set of keys with a delete that may fail, and may then have taken effect.
- SHA-256, the fold to 20 bytes, ed25519 and the compression codecs are parameters. Freedom from collisions is assumed only in `StorePaths.OnePathOneContent`, and only of the texts hashed there.
- Postgres isolation and row-level security: a statement or explicit transaction is one step; in `Secrets` a rotation has a start and a commit time.
- Clocks: `Secrets`, `Jobs` and the collector each use one clock for database and replicas.
- UTF-8 lossy conversion in the wire readers: bytes are compared, since every word that decides a branch is ASCII. Errors of the writing side of a copy, and running out of memory on a huge length, are not modelled; a length beyond the input is a read error.
- `Jobs.JobStore.ReserveJob`: the failures of opening a transaction, of the statement and of its commit are one outcome, which takes no row.
- `GcRuns.KeyIsSafe`: a collector that loses its session mid-pass and is overtaken by another is not a run; `AdvisoryLocks.PassesNeverOverlap` says when that can happen.
- A worker with nothing to log reports an empty key (`crates/worker/src/main.rs:1750-1761`); it is a key like any other here, whose delete may fail.
- Job fields that no decision reads (system, error message, output paths, failure kind), and row fields of a path other than its references, key, tier, signatures and times.
- Writes by the `/upstream/<slug>` route and `record_substituted_path` set a tier unconditionally and are outside `Tiers`.
- Whether a client's declared NAR hash and size describe the bytes it pushed.
- The framed upload of `add_to_store_nar`, string lists on the wire, the handshake, and the replies of single commands: easier than the drain and the archive copier modelled here.
- `compress_hash`, `slug_for`, `algo_name`, metrics, logging, `admin.rs`, `tenant_view.rs`, start-up code and `plugin.cc`.
