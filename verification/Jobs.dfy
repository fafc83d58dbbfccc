/** Jobs: the table, its statements and the machine they make with the collector's job half, and what a reservation is
    worth (`reserve_job_db` and `record_job_outcome_db` of `crates/server/src/postgres_store.rs`, `crates/server/src/gc.rs`). */
module Jobs {
  import opened Numerals

  type Key = string
  type Time = int

  datatype Status = Running | Completed | Failed

  datatype LogState = Present | Marked | Purged

  datatype Job = Job(tenant: string, drv: string, status: Status, createdAt: Time,
                     finishedAt: Option<Time>, logKey: Option<Key>, logState: LogState)

  type Table = map<nat, Job>

  /** The row occupies the partial unique index on running rows at (tenant, drv). */
  predicate Holds(job: Job, tenant: string, drv: string) {
    job.status == Running && job.tenant == tenant && job.drv == drv
  }

  ghost predicate Vacant(jobs: Table, tenant: string, drv: string) {
    forall h :: h in jobs ==> !Holds(jobs[h], tenant, drv)
  }

  /** A reservation of the slot was made no longer ago than `retention`. */
  ghost predicate WithinRetention(jobs: Table, tenant: string, drv: string, now: Time, retention: int) {
    exists h :: h in jobs && Holds(jobs[h], tenant, drv) && now - jobs[h].createdAt <= retention
  }

  /** The index: one running row per (tenant, drv). */
  ghost predicate UniqueRunning(jobs: Table) {
    forall i, j :: i in jobs && j in jobs && Holds(jobs[i], jobs[j].tenant, jobs[j].drv) && jobs[j].status == Running ==> i == j
  }

  // ----- statements -----

  function NewJob(tenant: string, drv: string, now: Time): Job {
    Job(tenant, drv, Running, now, None, None, Present)
  }

  /** What the reserving statement did. `Duplicate` is the primary-key error. */
  datatype Effect = Inserted | Stole(holder: nat) | Conflict(holder: nat) | Duplicate

  /** The reserving statement: insert, take over a running row past `retention`, or leave things be. */
  ghost predicate ReserveStmt(jobs: Table, id: nat, tenant: string, drv: string, now: Time, retention: int, e: Effect, after: Table) {
    match e
    case Inserted =>
      && id !in jobs && Vacant(jobs, tenant, drv)
      && after == jobs[id := NewJob(tenant, drv, now)]
    case Stole(h) =>
      && h in jobs && Holds(jobs[h], tenant, drv) && jobs[h].createdAt < now - retention
      && (id == h || id !in jobs)
      && after == (jobs - {h})[id := jobs[h].(createdAt := now, finishedAt := None, logKey := None)]
    case Conflict(h) =>
      && h in jobs && Holds(jobs[h], tenant, drv) && jobs[h].createdAt >= now - retention
      && after == jobs
    case Duplicate =>
      && id in jobs
      && (forall h :: h in jobs && Holds(jobs[h], tenant, drv) ==> h != id && jobs[h].createdAt < now - retention)
      && after == jobs
  }

  /** Recording an outcome: insert, or update the row of that id; always to a terminal status. */
  function Finish(jobs: Table, id: nat, tenant: string, drv: string, ok: bool, key: Key, now: Time): Table {
    var status := if ok then Completed else Failed;
    if id in jobs then jobs[id := jobs[id].(status := status, logKey := Some(key), finishedAt := Some(now))]
    else jobs[id := Job(tenant, drv, status, now, Some(now), Some(key), Present)]
  }

  function ReclaimRow(job: Job, now: Time, cutoff: int): Job {
    if job.status == Running && job.createdAt < now - cutoff then job.(status := Failed, finishedAt := Some(now)) else job
  }

  /** `reclaim_stuck_running_jobs`. */
  function Reclaim(jobs: Table, now: Time, cutoff: int): Table {
    map id | id in jobs :: ReclaimRow(jobs[id], now, cutoff)
  }

  predicate FinishedBefore(job: Job, t: Time) {
    job.finishedAt.Some? && job.finishedAt.value < t
  }

  function MarkRow(job: Job, now: Time, cutoff: int): Job {
    if job.logState == Present && FinishedBefore(job, now - cutoff) then job.(logState := Marked) else job
  }

  /** `mark_expired_job_logs`. */
  function MarkLogs(jobs: Table, now: Time, cutoff: int): Table {
    map id | id in jobs :: MarkRow(jobs[id], now, cutoff)
  }

  /** The sweep's update of one row: still marked, its log is gone. */
  function Purge(jobs: Table, id: nat): Table {
    if id in jobs && jobs[id].logState == Marked then jobs[id := jobs[id].(logState := Purged, logKey := None)] else jobs
  }

  /** `reap_jobs`. */
  function ReapJobs(jobs: Table, now: Time, cutoff: int): Table {
    map id | id in jobs && !(FinishedBefore(jobs[id], now - cutoff) && jobs[id].logState == Purged) :: jobs[id]
  }

  /** A marked row without a key: reading the marked rows fails on it. */
  predicate Keyless(jobs: Table, id: nat) {
    id in jobs && jobs[id].logState == Marked && jobs[id].logKey.None?
  }

  ghost predicate Blocked(jobs: Table) {
    exists id :: Keyless(jobs, id)
  }

  /** The scan of the marked rows and their keys. */
  ghost function MarkedKeys(jobs: Table): set<(nat, Key)> {
    set id | id in jobs && jobs[id].logState == Marked && jobs[id].logKey.Some? :: (id, jobs[id].logKey.value)
  }

  // ----- runs -----

  /** Where the job half of a collector pass is: between passes, about to scan, sweeping, about to reap, about to
      reclaim. `todo` holds the scanned rows not yet dealt with, `erased` the one whose object has just been deleted. */
  datatype Pass = Resting | Scanning | Sweeping(todo: set<(nat, Key)>, erased: Option<(nat, Key)>) | Reaping | Reclaiming

  /** `logs` holds the log objects, `pending` the uploads whose outcome has not been recorded yet. */
  datatype State = State(jobs: Table, now: Time, pass: Pass, logs: set<Key>, pending: set<(nat, Key)>)

  datatype Event =
    | Reserve(id: nat, tenant: string, drv: string, retention: int, effect: Effect)
    | UploadLog(id: nat, key: Key)
    | Abandon(id: nat, key: Key)
    | Outcome(id: nat, tenant: string, drv: string, ok: bool, key: Key)
    | MarkExpired(cutoff: int)
    | ScanLogs
    | ScanFails
    | DeleteSucceeds(row: (nat, Key))
    | DeleteFails(row: (nat, Key), lost: bool)
    | PurgeRow
    | EndSweep
    | Reap(cutoff: int)
    | ReclaimStuck(cutoff: int)
    | Crash

  predicate IsWriterEvent(e: Event) {
    e.Reserve? || e.UploadLog? || e.Abandon? || e.Outcome?
  }

  /** The worker's and dispatcher's steps. */
  ghost predicate WriterStep(s: State, e: Event, t: State)
    requires IsWriterEvent(e)
  {
    match e
    case Reserve(id, tenant, drv, retention, effect) =>
      ReserveStmt(s.jobs, id, tenant, drv, t.now, retention, effect, t.jobs) && t == s.(jobs := t.jobs, now := t.now)
    case UploadLog(id, key) => t == s.(logs := s.logs + {key}, pending := s.pending + {(id, key)}, now := t.now)
    case Abandon(id, key) => (id, key) in s.pending && t == s.(pending := s.pending - {(id, key)}, now := t.now)
    case Outcome(id, tenant, drv, ok, key) =>
      t == s.(jobs := Finish(s.jobs, id, tenant, drv, ok, key, t.now), pending := s.pending - {(id, key)}, now := t.now)
  }

  /** The collector's: mark, scan, delete and purge row by row, reap, reclaim, in that order; an error ends the pass. */
  ghost predicate CollectorStep(s: State, e: Event, t: State)
    requires !IsWriterEvent(e)
  {
    match e
    case MarkExpired(cutoff) =>
      s.pass.Resting? && t == s.(jobs := MarkLogs(s.jobs, t.now, cutoff), pass := Scanning, now := t.now)
    case ScanLogs =>
      s.pass.Scanning? && !Blocked(s.jobs) && t == s.(pass := Sweeping(MarkedKeys(s.jobs), None), now := t.now)
    case ScanFails => s.pass.Scanning? && Blocked(s.jobs) && t == s.(pass := Resting, now := t.now)
    case DeleteSucceeds(row) =>
      && s.pass.Sweeping? && s.pass.erased.None? && row in s.pass.todo
      && t == s.(pass := Sweeping(s.pass.todo - {row}, Some(row)), logs := s.logs - {row.1}, now := t.now)
    case DeleteFails(row, lost) =>
      && s.pass.Sweeping? && s.pass.erased.None? && row in s.pass.todo
      && t == s.(pass := Sweeping(s.pass.todo - {row}, None), logs := if lost then s.logs - {row.1} else s.logs, now := t.now)
    case PurgeRow =>
      && s.pass.Sweeping? && s.pass.erased.Some?
      && t == s.(jobs := Purge(s.jobs, s.pass.erased.value.0), pass := Sweeping(s.pass.todo, None), now := t.now)
    case EndSweep => s.pass == Sweeping({}, None) && t == s.(pass := Reaping, now := t.now)
    case Reap(cutoff) => s.pass.Reaping? && t == s.(jobs := ReapJobs(s.jobs, t.now, cutoff), pass := Reclaiming, now := t.now)
    case ReclaimStuck(cutoff) =>
      s.pass.Reclaiming? && t == s.(jobs := Reclaim(s.jobs, t.now, cutoff), pass := Resting, now := t.now)
    case Crash => t == s.(pass := Resting, now := t.now)
  }

  /** One statement or object-store call, at a time `t.now` not before the last. */
  ghost predicate Next(s: State, e: Event, t: State) {
    && t.now >= s.now
    && if IsWriterEvent(e) then WriterStep(s, e, t) else CollectorStep(s, e, t)
  }

  ghost predicate Run(states: seq<State>, events: seq<Event>) {
    && |states| == |events| + 1
    && forall i :: 0 <= i < |events| ==> Next(states[i], events[i], states[i + 1])
  }

  // ----- the table's invariant -----

  /** A running row has not finished and carries no log. */
  ghost predicate RunningIsBare(jobs: Table) {
    forall id :: id in jobs && jobs[id].status == Running ==>
      jobs[id].finishedAt == None && jobs[id].logKey == None && jobs[id].logState == Present
  }

  ghost predicate TableInv(jobs: Table) {
    UniqueRunning(jobs) && RunningIsBare(jobs)
  }

  lemma ReserveKeepsTable(jobs: Table, id: nat, tenant: string, drv: string, now: Time, retention: int, e: Effect, after: Table)
    requires TableInv(jobs) && ReserveStmt(jobs, id, tenant, drv, now, retention, e, after)
    ensures TableInv(after)
  {
  }

  lemma FinishKeepsTable(jobs: Table, id: nat, tenant: string, drv: string, ok: bool, key: Key, now: Time)
    requires TableInv(jobs)
    ensures TableInv(Finish(jobs, id, tenant, drv, ok, key, now))
  {
  }

  lemma NextKeepsTable(s: State, e: Event, t: State)
    requires TableInv(s.jobs) && Next(s, e, t)
    ensures TableInv(t.jobs)
  {
    match e
    case Reserve(id, tenant, drv, retention, effect) =>
      ReserveKeepsTable(s.jobs, id, tenant, drv, t.now, retention, effect, t.jobs);
    case Outcome(id, tenant, drv, ok, key) => FinishKeepsTable(s.jobs, id, tenant, drv, ok, key, t.now);
    case _ => QuietStepKeepsTable(s, e, t);
  }

  lemma QuietStepKeepsTable(s: State, e: Event, t: State)
    requires TableInv(s.jobs) && Next(s, e, t) && !e.Reserve? && !e.Outcome?
    ensures TableInv(t.jobs)
  {
    assert forall id :: id in t.jobs && t.jobs[id].status == Running ==> id in s.jobs && t.jobs[id] == s.jobs[id];
  }

  lemma {:induction false} RunKeepsTable(states: seq<State>, events: seq<Event>, n: nat)
    requires Run(states, events) && TableInv(states[0].jobs) && n < |states|
    ensures TableInv(states[n].jobs)
  {
    hide Next, TableInv;
    if n > 0 {
      RunKeepsTable(states, events, n - 1);
      assert Next(states[n - 1], events[n - 1], states[n - 1 + 1]);
      NextKeepsTable(states[n - 1], events[n - 1], states[n]);
    }
  }

  // ----- what each statement does -----

  /** What a reservation comes to is settled by the table: it takes a vacant slot under a new id, takes over a holder past
      retention, and is turned away by one within it; a used id fails, unless it is the holder's own. */
  lemma ReserveExactly(jobs: Table, id: nat, tenant: string, drv: string, now: Time, retention: int, e: Effect, after: Table)
    requires UniqueRunning(jobs) && ReserveStmt(jobs, id, tenant, drv, now, retention, e, after)
    ensures e.Inserted? <==> Vacant(jobs, tenant, drv) && id !in jobs
    ensures Vacant(jobs, tenant, drv) && id in jobs ==> e.Duplicate?
    ensures forall h :: h in jobs && Holds(jobs[h], tenant, drv) ==> e == HolderEffect(jobs, h, id, now, retention)
  {
  }

  /** What meets a slot held by `h`. */
  function HolderEffect(jobs: Table, h: nat, id: nat, now: Time, retention: int): Effect
    requires h in jobs
  {
    if now - jobs[h].createdAt <= retention then Conflict(h)
    else if id == h || id !in jobs then Stole(h)
    else Duplicate
  }

  /** A stale reservation does not hold up the next one: it is taken over, and its id is gone. */
  lemma StaleSlotIsTaken(s: State, e: Event, t: State, h: nat)
    requires TableInv(s.jobs) && Next(s, e, t) && e.Reserve? && e.id !in s.jobs
    requires h in s.jobs && Holds(s.jobs[h], e.tenant, e.drv) && t.now - s.jobs[h].createdAt > e.retention
    ensures e.effect == Stole(h) && Reserved(t, e.id, e.tenant, e.drv, t.now) && h !in t.jobs
    ensures forall i :: i in s.jobs && i != h ==> i in t.jobs && t.jobs[i] == s.jobs[i]
  {
    ReserveExactly(s.jobs, e.id, e.tenant, e.drv, t.now, e.retention, e.effect, t.jobs);
  }

  /** An outcome is recorded under its id, once and for all: as reported, finished now, with its key, created when it was
      reserved; every other row stays; and reporting it again changes nothing but the time it finished. */
  lemma OutcomeIsRecorded(jobs: Table, id: nat, tenant: string, drv: string, ok: bool, key: Key, now: Time, later: Time)
    ensures var done := Finish(jobs, id, tenant, drv, ok, key, now);
      && id in done && (done[id].status == Completed <==> ok) && (done[id].status == Failed <==> !ok)
      && done[id].finishedAt == Some(now) && done[id].logKey == Some(key)
      && (id !in jobs ==> done[id].tenant == tenant && done[id].drv == drv && done[id].createdAt == now && done[id].logState == Present)
      && (id in jobs ==> done[id].tenant == jobs[id].tenant && done[id].drv == jobs[id].drv
                         && done[id].createdAt == jobs[id].createdAt && done[id].logState == jobs[id].logState)
      && (forall i :: i != id ==> (i in done <==> i in jobs) && (i in jobs ==> done[i] == jobs[i]))
    ensures var done := Finish(jobs, id, tenant, drv, ok, key, now);
      Finish(done, id, tenant, drv, ok, key, later) == done[id := done[id].(finishedAt := Some(later))]
  {
  }

  /** A reclaim fails exactly the running rows that are older than its cutoff, as of now, and changes nothing else. */
  lemma ReclaimedExactly(jobs: Table, now: Time, cutoff: int, id: nat)
    requires id in jobs
    ensures var after := Reclaim(jobs, now, cutoff);
      && id in after && (after[id] != jobs[id] ==> jobs[id].status == Running && now - jobs[id].createdAt > cutoff)
      && (jobs[id].status == Running && now - jobs[id].createdAt > cutoff ==>
            after[id].status == Failed && after[id].finishedAt == Some(now) && after[id].logKey == jobs[id].logKey
            && after[id].tenant == jobs[id].tenant && after[id].drv == jobs[id].drv)
  {
  }

  // ----- one build at a time -----

  /** The statement left a running row of its own. */
  predicate Won(e: Event, id: nat, tenant: string, drv: string) {
    e.Reserve? && e.id == id && e.tenant == tenant && e.drv == drv && (e.effect.Inserted? || e.effect.Stole?)
  }

  /** The step that ends the reservation `id` made at `since`: its own outcome, or a statement that found it aged
      past the retention that statement was given. */
  predicate Ends(e: Event, now: Time, id: nat, since: Time) {
    match e
    case Outcome(i, _, _, _, _) => i == id
    case ReclaimStuck(cutoff) => since < now - cutoff
    case Reserve(_, _, _, retention, effect) => effect == Stole(id) && since < now - retention
    case _ => false
  }

  ghost predicate Reserved(s: State, id: nat, tenant: string, drv: string, since: Time) {
    id in s.jobs && Holds(s.jobs[id], tenant, drv) && s.jobs[id].createdAt == since
  }

  lemma ReservationStands(s: State, e: Event, t: State, id: nat, tenant: string, drv: string, since: Time)
    requires TableInv(s.jobs) && Next(s, e, t) && Reserved(s, id, tenant, drv, since)
    requires !Ends(e, t.now, id, since)
    ensures Reserved(t, id, tenant, drv, since)
  {
  }

  lemma WonReserves(s: State, e: Event, t: State, id: nat, tenant: string, drv: string)
    requires Next(s, e, t) && Won(e, id, tenant, drv)
    ensures Reserved(t, id, tenant, drv, t.now)
  {
  }

  /** A reservation stands until a step that ends it. */
  lemma {:induction false} StandsUntilEnded(states: seq<State>, events: seq<Event>, i: nat, n: nat, id: nat, tenant: string, drv: string)
    requires Run(states, events) && TableInv(states[0].jobs)
    requires i < n < |states| && Won(events[i], id, tenant, drv)
    requires forall m :: i < m < n ==> !Ends(events[m], states[m + 1].now, id, states[i + 1].now)
    ensures Reserved(states[n], id, tenant, drv, states[i + 1].now)
    decreases n
  {
    hide TableInv, Ends, Next, Reserved;
    if n == i + 1 {
      assert Next(states[i], events[i], states[i + 1]);
      WonReserves(states[i], events[i], states[i + 1], id, tenant, drv);
    } else {
      StandsUntilEnded(states, events, i, n - 1, id, tenant, drv);
      RunKeepsTable(states, events, n - 1);
      assert Next(states[n - 1], events[n - 1], states[n - 1 + 1]);
      assert !Ends(events[n - 1], states[n - 1 + 1].now, id, states[i + 1].now);
      ReservationStands(states[n - 1], events[n - 1], states[n], id, tenant, drv, states[i + 1].now);
    }
  }

  /** Two reservations of one derivation that each took a row are separated by the first one's outcome or by a
      statement that found the first aged past retention. */
  lemma ReservationsAreSeparated(states: seq<State>, events: seq<Event>, i: nat, j: nat, a: nat, b: nat, tenant: string, drv: string)
    requires Run(states, events) && TableInv(states[0].jobs)
    requires i < j < |events| && Won(events[i], a, tenant, drv) && Won(events[j], b, tenant, drv)
    ensures exists m :: i < m <= j && Ends(events[m], states[m + 1].now, a, states[i + 1].now)
  {
    if forall m :: i < m < j ==> !Ends(events[m], states[m + 1].now, a, states[i + 1].now) {
      StandsUntilEnded(states, events, i, j, a, tenant, drv);
      RunKeepsTable(states, events, j);
      assert Next(states[j], events[j], states[j + 1]);
      assert Ends(events[j], states[j + 1].now, a, states[i + 1].now);
    }
  }

  /** With one retention everywhere, the first reservation was completed or is older than that. */
  lemma OneBuildPerRetention(states: seq<State>, events: seq<Event>, i: nat, j: nat, a: nat, b: nat, tenant: string, drv: string, retention: int)
    requires Run(states, events) && TableInv(states[0].jobs)
    requires i < j < |events| && Won(events[i], a, tenant, drv) && Won(events[j], b, tenant, drv)
    requires forall m :: 0 <= m < |events| ==>
      && (events[m].Reserve? ==> events[m].retention == retention)
      && (events[m].ReclaimStuck? ==> events[m].cutoff == retention)
    ensures (exists m :: i < m < j && events[m].Outcome? && events[m].id == a)
         || states[j + 1].now - states[i + 1].now > retention
  {
    ReservationsAreSeparated(states, events, i, j, a, b, tenant, drv);
    var m :| i < m <= j && Ends(events[m], states[m + 1].now, a, states[i + 1].now);
    TimePasses(states, events, m + 1, j + 1);
  }

  lemma {:induction false} TimePasses(states: seq<State>, events: seq<Event>, m: nat, n: nat)
    requires Run(states, events) && m <= n < |states|
    ensures states[m].now <= states[n].now
    decreases n
  {
    if m < n {
      TimePasses(states, events, m, n - 1);
      assert Next(states[n - 1], events[n - 1], states[n - 1 + 1]);
    }
  }

  /** An outcome for any other id, a stolen one included, leaves a reservation exactly as it was. */
  lemma LateOutcomeIsHarmless(s: State, e: Event, t: State, thief: nat)
    requires Next(s, e, t) && e.Outcome? && e.id != thief && thief in s.jobs
    ensures thief in t.jobs && t.jobs[thief] == s.jobs[thief]
    ensures e.id !in s.jobs ==> t.jobs[e.id].status != Running
  {
  }

  /** A held slot becomes free exactly by its holder's outcome or by a reclaim that finds the holder stuck: never by a
      steal, which hands it on, nor by anyone else's outcome. */
  lemma SlotFreedExactly(s: State, e: Event, t: State, h: nat, tenant: string, drv: string, since: Time)
    requires TableInv(s.jobs) && Next(s, e, t) && Reserved(s, h, tenant, drv, since)
    ensures Vacant(t.jobs, tenant, drv)
       <==> (e.Outcome? && e.id == h) || (e.ReclaimStuck? && since < t.now - e.cutoff)
  {
    var running := set i | i in s.jobs && Holds(s.jobs[i], tenant, drv);
    assert forall i :: i in running ==> i == h;
    if e.Reserve? {
      assert e.effect.Stole? && e.effect.holder == h && e.tenant == tenant && e.drv == drv ==> Holds(t.jobs[e.id], tenant, drv);
    }
    if !(e.Reserve? && e.effect.Stole? && e.effect.holder == h) && h in t.jobs && t.jobs[h].status == Running {
      assert Holds(t.jobs[h], tenant, drv);
    }
  }

  // ----- the methods -----

  /** What a dispatcher is told. A fail-open `Won` is kept apart from one that has a row. */
  datatype Reservation = WonRow | WonWithoutRow | WonByError | Lost(holder: nat)

  class JobStore {
    var jobs: Table

    constructor ()
      ensures jobs == map[]
    {
      jobs := map[];
    }

    method ReserveStatement(id: nat, tenant: string, drv: string, now: Time, retention: int) returns (e: Effect)
      modifies this
      ensures ReserveStmt(old(jobs), id, tenant, drv, now, retention, e, jobs)
      ensures e.Conflict? <==> WithinRetention(old(jobs), tenant, drv, now, retention)
      ensures e.Inserted? <==> Vacant(old(jobs), tenant, drv) && id !in old(jobs)
    {
      if h :| h in jobs && Holds(jobs[h], tenant, drv) && jobs[h].createdAt >= now - retention {
        return Conflict(h);
      }
      if h :| h in jobs && Holds(jobs[h], tenant, drv) && (id == h || id !in jobs) {
        jobs := (jobs - {h})[id := jobs[h].(createdAt := now, finishedAt := None, logKey := None)];
        return Stole(h);
      }
      if id in jobs {
        return Duplicate;
      }
      jobs := jobs[id := NewJob(tenant, drv, now)];
      e := Inserted;
    }

    /** `reserve_job_db`: up to two attempts of two statements each. Other sessions run between any two statements,
        so statement `k` finds the table `found[k]` at time `nows[k]`; `fails[k]` says that it ends in a database error. */
    method ReserveJob(id: nat, tenant: string, drv: string, nows: seq<Time>, retention: int, found: seq<Table>, fails: seq<bool>)
        returns (r: Reservation, ghost last: nat)
      requires |nows| == |found| == |fails| == 4 && forall k :: 0 <= k < 4 ==> UniqueRunning(found[k])
      modifies this
      ensures last < 4 && UniqueRunning(jobs)
      ensures r != WonRow ==> jobs == found[last]
      ensures r == WonRow ==> exists e: Effect :: (e.Inserted? || e.Stole?) && ReserveStmt(found[last], id, tenant, drv, nows[last], retention, e, jobs)
      ensures r == WonRow ==> id in jobs && Holds(jobs[id], tenant, drv) && jobs[id].createdAt == nows[last]
      ensures r.Lost? ==> r.holder in jobs && Holds(jobs[r.holder], tenant, drv)
      ensures r.Lost? ==> last % 2 == 1 && WithinRetention(found[last - 1], tenant, drv, nows[last - 1], retention)
      ensures r == WonWithoutRow ==> WithinRetention(found[0], tenant, drv, nows[0], retention)
      ensures r == WonWithoutRow ==> WithinRetention(found[2], tenant, drv, nows[2], retention)
      ensures r == WonWithoutRow ==> last == 3 && Vacant(found[1], tenant, drv) && Vacant(found[3], tenant, drv)
      ensures r == WonWithoutRow ==> !Vacant(found[0], tenant, drv) && !Vacant(found[2], tenant, drv)
      ensures r == WonByError ==> fails[last] || id in found[last]
    {
      hide UniqueRunning, WithinRetention;
      for attempt := 0 to 2
        invariant attempt > 0 ==> jobs == found[2 * attempt - 1]
        invariant forall k :: 0 <= k < attempt ==> !Vacant(found[2 * k], tenant, drv) && Vacant(found[2 * k + 1], tenant, drv)
        invariant forall k :: 0 <= k < attempt ==> WithinRetention(found[2 * k], tenant, drv, nows[2 * k], retention)
      {
        last := 2 * attempt;
        jobs := found[2 * attempt];
        if fails[2 * attempt] {
          return WonByError, last;
        }
        var e := ReserveStatement(id, tenant, drv, nows[2 * attempt], retention);
        if e.Duplicate? {
          return WonByError, last;
        }
        if e.Inserted? || e.Stole? {
          ReserveKeepsIndex(found[last], id, tenant, drv, nows[last], retention, e, jobs);
          return WonRow, last;
        }
        assert Holds(found[last][e.holder], tenant, drv);
        assert WithinRetention(found[2 * attempt], tenant, drv, nows[2 * attempt], retention);
        last := 2 * attempt + 1;
        jobs := found[2 * attempt + 1];
        if fails[2 * attempt + 1] {
          return WonByError, last;
        }
        if h :| h in jobs && Holds(jobs[h], tenant, drv) {
          return Lost(h), last;
        }
      }
      assert Vacant(found[2 * 0 + 1], tenant, drv) && Vacant(found[2 * 1 + 1], tenant, drv);
      assert !Vacant(found[2 * 0], tenant, drv) && !Vacant(found[2 * 1], tenant, drv);
      assert WithinRetention(found[2 * 0], tenant, drv, nows[2 * 0], retention) && WithinRetention(found[2 * 1], tenant, drv, nows[2 * 1], retention);
      r, last := WonWithoutRow, 3;
    }
  }

  lemma ReserveKeepsIndex(jobs: Table, id: nat, tenant: string, drv: string, now: Time, retention: int, e: Effect, after: Table)
    requires UniqueRunning(jobs) && ReserveStmt(jobs, id, tenant, drv, now, retention, e, after)
    ensures UniqueRunning(after)
  {
  }
}
