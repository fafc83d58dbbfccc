/** Job logs: what a pass does to them, when a pass is stuck, and which log objects are kept track of
    (the job half of `crates/server/src/gc.rs`, `record_job_outcome_db` of `crates/server/src/postgres_store.rs`). */
module JobLogs {
  import opened Numerals
  import opened Strings
  import opened Jobs
  import GcPass
  import StorePaths

  // ----- a pass that is stuck -----

  predicate Reports(e: Event, id: nat) {
    e.Outcome? && e.id == id
  }

  /** Anything a pass does after reading the marked rows. */
  predicate PassWork(e: Event) {
    e.ScanLogs? || e.DeleteSucceeds? || e.DeleteFails? || e.PurgeRow? || e.EndSweep? || e.Reap? || e.ReclaimStuck?
  }

  predicate BeforeScan(s: State) {
    s.pass.Resting? || s.pass.Scanning?
  }

  lemma KeylessStays(s: State, e: Event, t: State, id: nat)
    requires TableInv(s.jobs) && BeforeScan(s) && Keyless(s.jobs, id) && Next(s, e, t) && !Reports(e, id)
    ensures Keyless(t.jobs, id) && BeforeScan(t) && !PassWork(e)
  {
  }

  /** Before its scan a pass becomes unstuck exactly by an outcome for the only marked row without a key. */
  lemma UnblockedExactly(s: State, e: Event, t: State)
    requires TableInv(s.jobs) && BeforeScan(s) && Blocked(s.jobs) && Next(s, e, t)
    ensures !Blocked(t.jobs) <==> e.Outcome? && forall id :: Keyless(s.jobs, id) ==> id == e.id
  {
    if id :| Keyless(s.jobs, id) && !Reports(e, id) {
      KeylessStays(s, e, t, id);
    } else {
      assert e.Outcome?;
      assert forall id :: Keyless(t.jobs, id) ==> Keyless(s.jobs, id);
    }
  }

  lemma {:induction false} StuckWithout(states: seq<State>, events: seq<Event>, id: nat, n: nat)
    requires Run(states, events) && TableInv(states[0].jobs) && BeforeScan(states[0]) && n < |states|
    requires Keyless(states[0].jobs, id) && forall i :: 0 <= i < n ==> !Reports(events[i], id)
    ensures Keyless(states[n].jobs, id) && BeforeScan(states[n])
    ensures forall i :: 0 <= i < n ==> !PassWork(events[i])
  {
    hide Next, TableInv, Keyless, BeforeScan, Reports, PassWork;
    if n > 0 {
      StuckWithout(states, events, id, n - 1);
      RunKeepsTable(states, events, n - 1);
      assert !Reports(events[n - 1], id);
      assert Next(states[n - 1], events[n - 1], states[n - 1 + 1]);
      KeylessStays(states[n - 1], events[n - 1], states[n], id);
    }
  }

  /** In every run that starts between passes, no pass deletes or purges a log, reaps a row or reclaims a stuck
      reservation before an outcome has arrived for every marked row without a key. */
  lemma StuckUntilAllReported(states: seq<State>, events: seq<Event>, m: nat)
    requires Run(states, events) && TableInv(states[0].jobs) && BeforeScan(states[0])
    requires m < |events| && PassWork(events[m])
    ensures forall id :: Keyless(states[0].jobs, id) ==> exists i :: 0 <= i < m && Reports(events[i], id)
  {
    hide TableInv, Keyless, BeforeScan, PassWork, Reports;
    forall id | Keyless(states[0].jobs, id)
      ensures exists i :: 0 <= i < m && Reports(events[i], id)
    {
      if forall i :: 0 <= i < m ==> !Reports(events[i], id) {
        StuckWithout(states, events, id, m);
        assert !Reports(events[m], id) by { NotBoth(events[m], id); }
        StuckWithout(states, events, id, m + 1);
      }
    }
  }

  lemma NotBoth(e: Event, id: nat)
    requires PassWork(e)
    ensures !Reports(e, id)
  {
  }

  /** A reclaimed orphan is how this comes about: it has no key, and once its log is due the next pass is stuck. */
  lemma OrphanBlocksPass(jobs: Table, id: nat, t1: Time, stuck: int, t2: Time, cutoff: int)
    requires TableInv(jobs) && id in jobs && jobs[id].status == Running
    requires jobs[id].createdAt < t1 - stuck && t1 < t2 - cutoff
    ensures Keyless(MarkLogs(Reclaim(jobs, t1, stuck), t2, cutoff), id)
  {
  }

  // ----- one pass -----

  predicate Sweepable(job: Job) {
    job.logState == Marked && job.logKey.Some?
  }

  /** The row's own delete succeeds. */
  predicate Deletable(job: Job, outcome: GcPass.Deletion) {
    Sweepable(job) && outcome == GcPass.Deleted
  }

  /** The table after a sweep has visited the rows in `done`. */
  ghost function SweptLogs(jobs: Table, done: set<nat>, outcome: nat -> GcPass.Deletion): Table {
    map id | id in jobs ::
      if id in done && Deletable(jobs[id], outcome(id)) then jobs[id].(logState := Purged, logKey := None) else jobs[id]
  }

  /** Its delete, successful or not, removes the object `k`. */
  predicate Removes(job: Job, outcome: GcPass.Deletion, k: Key) {
    Sweepable(job) && job.logKey == Some(k) && outcome != GcPass.FailedKept
  }

  /** The log objects after a sweep has visited the rows in `done`. */
  ghost function SweptObjects(jobs: Table, logs: set<Key>, done: set<nat>, outcome: nat -> GcPass.Deletion): set<Key> {
    set k | k in logs && forall id :: id in jobs && id in done ==> !Removes(jobs[id], outcome(id), k)
  }

  /** The rows among `done` that a sweep purges. */
  ghost function Hits(jobs: Table, done: set<nat>, outcome: nat -> GcPass.Deletion): set<nat> {
    set id | id in jobs && id in done && Deletable(jobs[id], outcome(id))
  }

  /** When each statement of a pass runs, and the retentions it is given. */
  datatype Schedule = Schedule(markAt: Time, reapAt: Time, reclaimAt: Time, logAfter: int, rowAfter: int, stuckAfter: int)

  /** The job half of a pass. A scan that fails ends it, before the reap and the reclaim. */
  ghost function JobPass(jobs: Table, c: Schedule, outcome: nat -> GcPass.Deletion): Table {
    var marked := MarkLogs(jobs, c.markAt, c.logAfter);
    if Blocked(marked) then marked
    else Reclaim(ReapJobs(SweptLogs(marked, marked.Keys, outcome), c.reapAt, c.rowAfter), c.reclaimAt, c.stuckAfter)
  }

  ghost function LogsAfterPass(jobs: Table, logs: set<Key>, c: Schedule, outcome: nat -> GcPass.Deletion): set<Key> {
    var marked := MarkLogs(jobs, c.markAt, c.logAfter);
    if Blocked(marked) then logs else SweptObjects(marked, logs, marked.Keys, outcome)
  }

  /** A finished row goes in a pass exactly when the pass is not stuck, the row is past its own retention, and its log
      is swept, either before or in this very pass, which takes the log's retention and a delete that succeeds. */
  lemma ReapedExactly(jobs: Table, id: nat, c: Schedule, outcome: nat -> GcPass.Deletion)
    requires id in jobs && jobs[id].finishedAt.Some?
    ensures id !in JobPass(jobs, c, outcome)
       <==> && !Blocked(MarkLogs(jobs, c.markAt, c.logAfter))
            && jobs[id].finishedAt.value < c.reapAt - c.rowAfter
            && (jobs[id].logState == Purged
                || (outcome(id) == GcPass.Deleted
                    && (jobs[id].logState == Marked || jobs[id].finishedAt.value < c.markAt - c.logAfter)))
  {
    var marked := MarkLogs(jobs, c.markAt, c.logAfter);
    assert marked[id] == MarkRow(jobs[id], c.markAt, c.logAfter);
    assert Keyless(marked, id) ==> Blocked(marked);
    hide Blocked, MarkLogs;
  }

  /** Another row is due and its delete removes the object `k`. */
  ghost predicate OtherRemoves(jobs: Table, id: nat, c: Schedule, outcome: nat -> GcPass.Deletion, k: Key) {
    exists other :: other in jobs && other != id && Removes(MarkRow(jobs[other], c.markAt, c.logAfter), outcome(other), k)
  }

  /** A row whose log is not due keeps its object through a pass exactly when the pass is stuck or no other row with the
      same key is due and deleted: the key belongs to the derivation, and the jobs of one derivation share it. */
  lemma PresentLogSurvivesExactly(jobs: Table, logs: set<Key>, id: nat, k: Key, c: Schedule, outcome: nat -> GcPass.Deletion)
    requires id in jobs && jobs[id].logKey == Some(k) && k in logs
    requires MarkRow(jobs[id], c.markAt, c.logAfter).logState == Present
    ensures k in LogsAfterPass(jobs, logs, c, outcome)
       <==> Blocked(MarkLogs(jobs, c.markAt, c.logAfter)) || !OtherRemoves(jobs, id, c, outcome, k)
  {
    hide Blocked;
    var marked := MarkLogs(jobs, c.markAt, c.logAfter);
    assert forall i :: i in jobs ==> marked[i] == MarkRow(jobs[i], c.markAt, c.logAfter);
    assert !Sweepable(marked[id]);
    assert OtherRemoves(jobs, id, c, outcome, k) <==> exists i :: i in marked && Removes(marked[i], outcome(i), k);
  }

  /** `log_key`: a key of the tenant and the derivation, not of the job. */
  function LogKey(tenant: string, hash: string): Key {
    tenant + "/" + ("log" + "/" + hash)
  }

  /** Two jobs share a log key exactly when they are of one tenant and one derivation hash. */
  lemma LogKeysEqualExactly(a: string, drv1: string, b: string, drv2: string)
    requires SlashFree(a) && SlashFree(b)
    requires StorePaths.HashPart(drv1).Some? && StorePaths.HashPart(drv2).Some?
    ensures LogKey(a, StorePaths.HashPart(drv1).value) == LogKey(b, StorePaths.HashPart(drv2).value)
       <==> a == b && StorePaths.HashPart(drv1) == StorePaths.HashPart(drv2)
  {
    hide StorePaths.HashPart;
    var x, y := StorePaths.HashPart(drv1).value, StorePaths.HashPart(drv2).value;
    if LogKey(a, x) == LogKey(b, y) {
      FirstSlash(a, "log" + "/" + x, b, "log" + "/" + y);
      FirstSlash("log", x, "log", y);
    }
  }

  // ----- letting go of a key -----

  ghost predicate LetsGo(s: State, t: State, id: nat) {
    id in s.jobs && s.jobs[id].logKey.Some? && !(id in t.jobs && t.jobs[id].logKey == s.jobs[id].logKey)
  }

  /** A row lets go of its key exactly by an outcome with another one, by being purged, or by being reaped. */
  lemma LetGoExactly(s: State, e: Event, t: State, id: nat)
    requires TableInv(s.jobs) && Next(s, e, t) && id in s.jobs && s.jobs[id].logKey.Some?
    ensures LetsGo(s, t, id)
       <==> || (Reports(e, id) && s.jobs[id].logKey != Some(e.key))
            || (e.PurgeRow? && s.pass.erased.value.0 == id && s.jobs[id].logState == Marked)
            || (e.Reap? && FinishedBefore(s.jobs[id], t.now - e.cutoff) && s.jobs[id].logState == Purged)
  {
  }

  /** An outcome of `id` names `k` and does not come for a row already purged. Other jobs' outcomes may do anything. */
  ghost predicate SettledFor(s: State, e: Event, id: nat, k: Key) {
    Reports(e, id) ==> e.key == k && (id in s.jobs ==> s.jobs[id].logState != Purged)
  }

  /** The row of `id` names `k` or nothing, nothing once purged, and a sweep knows it by that key. */
  ghost predicate RowFor(s: State, id: nat, k: Key) {
    && (id in s.jobs && s.jobs[id].logKey.Some? ==> s.jobs[id].logKey.value == k && s.jobs[id].logState != Purged)
    && (s.pass.Sweeping? && s.pass.erased.Some? && s.pass.erased.value.0 == id ==> s.pass.erased.value.1 == k)
    && (s.pass.Sweeping? ==> forall r :: r in s.pass.todo && r.0 == id ==> r.1 == k)
  }

  lemma NextKeepsRow(s: State, e: Event, t: State, id: nat, k: Key)
    requires TableInv(s.jobs) && RowFor(s, id, k) && Next(s, e, t) && SettledFor(s, e, id, k)
    ensures RowFor(t, id, k)
  {
    hide UniqueRunning;
  }

  /** The step that lets go of a key is the purge that follows the delete of that row's own object. */
  lemma NextLetsGo(s: State, e: Event, t: State, id: nat, k: Key)
    requires TableInv(s.jobs) && RowFor(s, id, k) && Next(s, e, t) && SettledFor(s, e, id, k) && LetsGo(s, t, id)
    ensures e.PurgeRow? && s.pass.Sweeping? && s.jobs[id].logKey == Some(k) && s.pass.erased == Some((id, k))
  {
    LetGoExactly(s, e, t, id);
  }

  lemma {:induction false} RunKeepsRow(states: seq<State>, events: seq<Event>, id: nat, k: Key, n: nat)
    requires Run(states, events) && TableInv(states[0].jobs) && RowFor(states[0], id, k) && n < |states|
    requires forall i :: 0 <= i < n ==> SettledFor(states[i], events[i], id, k)
    ensures RowFor(states[n], id, k)
  {
    hide Next, TableInv, RowFor, SettledFor;
    if n > 0 {
      RunKeepsRow(states, events, id, k, n - 1);
      RunKeepsTable(states, events, n - 1);
      assert Next(states[n - 1], events[n - 1], states[n - 1 + 1]) && SettledFor(states[n - 1], events[n - 1], id, k);
      NextKeepsRow(states[n - 1], events[n - 1], states[n], id, k);
    }
  }

  ghost predicate ErasedNow(s: State, row: (nat, Key)) {
    s.pass.Sweeping? && s.pass.erased == Some(row)
  }

  /** The row whose object is marked deleted was deleted in this run, and the sweep has done nothing since. */
  lemma {:induction false} ErasedWasDeleted(states: seq<State>, events: seq<Event>, row: (nat, Key), n: nat) returns (m: nat)
    requires Run(states, events) && n < |states| && ErasedNow(states[n], row) && BeforeScan(states[0])
    ensures m < n && events[m] == DeleteSucceeds(row) && forall i :: m < i < n ==> IsWriterEvent(events[i])
  {
    assert n > 0;
    assert Next(states[n - 1], events[n - 1], states[n - 1 + 1]);
    if IsWriterEvent(events[n - 1]) {
      m := ErasedWasDeleted(states, events, row, n - 1);
    } else {
      m := n - 1;
    }
  }

  /** In every run with crashes anywhere, whatever is reported of other jobs, a row whose own outcomes so far are settled
      gives up its key, by update or by deletion, only by the purge that follows a successful delete made for that very
      row and key. */
  lemma NoLogIsLost(states: seq<State>, events: seq<Event>, id: nat, k: Key, i: nat) returns (m: nat)
    requires Run(states, events) && TableInv(states[0].jobs) && RowFor(states[0], id, k) && BeforeScan(states[0])
    requires i < |events| && LetsGo(states[i], states[i + 1], id)
    requires forall j :: 0 <= j <= i ==> SettledFor(states[j], events[j], id, k)
    ensures states[i].jobs[id].logKey == Some(k) && events[i].PurgeRow?
    ensures m < i && events[m] == DeleteSucceeds((id, k)) && forall j :: m < j < i ==> IsWriterEvent(events[j])
  {
    hide TableInv, RowFor, SettledFor;
    RunKeepsRow(states, events, id, k, i);
    RunKeepsTable(states, events, i);
    assert Next(states[i], events[i], states[i + 1]) && SettledFor(states[i], events[i], id, k);
    NextLetsGo(states[i], events[i], states[i + 1], id, k);
    m := ErasedWasDeleted(states, events, (id, k), i);
  }

  // ----- which objects are kept track of -----

  /** A row that a sweep will still get to names the object. */
  predicate NamedBy(s: State, id: nat, k: Key) {
    id in s.jobs && s.jobs[id].logState != Purged && s.jobs[id].logKey == Some(k)
  }

  /** Job `id` keeps track of the object: its row does, or the outcome of its upload is still to come. */
  predicate TracksAs(s: State, id: nat, k: Key) {
    NamedBy(s, id, k) || (id, k) in s.pending
  }

  ghost predicate Tracked(s: State, k: Key) {
    exists id :: TracksAs(s, id, k)
  }

  /** Every log object is named by an unpurged row or by an upload whose outcome is still to come. */
  ghost predicate NoStray(s: State) {
    forall k :: k in s.logs ==> Tracked(s, k)
  }

  /** Job `id` ceases to track `k`: it reports `k` when its row is purged already, or reports another key; its row is
      purged; or its outcome is given up. */
  predicate Forgets(s: State, e: Event, id: nat, k: Key) {
    match e
    case Outcome(i, _, _, _, key) =>
      i == id && if key == k then id in s.jobs && s.jobs[id].logState == Purged else (id, k) !in s.pending
    case PurgeRow =>
      s.pass.Sweeping? && s.pass.erased.Some? && s.pass.erased.value.0 == id && id in s.jobs && s.jobs[id].logState == Marked
      && (id, k) !in s.pending
    case Abandon(i, key) => i == id && key == k && !NamedBy(s, id, k)
    case _ => false
  }

  lemma ForgottenExactly(s: State, e: Event, t: State, id: nat, k: Key)
    requires TableInv(s.jobs) && Next(s, e, t) && TracksAs(s, id, k)
    ensures TracksAs(t, id, k) <==> !Forgets(s, e, id, k)
  {
  }

  /** Only an upload or an outcome makes a job track an object. */
  lemma NewTracker(s: State, e: Event, t: State, id: nat, k: Key)
    requires TableInv(s.jobs) && Next(s, e, t) && TracksAs(t, id, k) && !TracksAs(s, id, k)
    ensures (e.UploadLog? || e.Outcome?) && e.id == id && e.key == k
  {
  }

  /** The step strands `k`: the object is there and the one job that tracks it ceases to. */
  ghost predicate Strands(s: State, e: Event, k: Key) {
    && k in s.logs
    && (exists id :: TracksAs(s, id, k))
    && (forall id :: TracksAs(s, id, k) ==> Forgets(s, e, id, k))
    && !(e.Outcome? && e.key == k && !(e.id in s.jobs && s.jobs[e.id].logState == Purged))
  }

  /** A tracked object is left untracked by a step exactly when the step strands it. */
  lemma StrandedExactly(s: State, e: Event, t: State, k: Key)
    requires TableInv(s.jobs) && Next(s, e, t) && k in s.logs && Tracked(s, k)
    ensures k in t.logs && !Tracked(t, k) <==> Strands(s, e, k)
  {
    forall id | TracksAs(s, id, k)
      ensures TracksAs(t, id, k) <==> !Forgets(s, e, id, k)
    {
      ForgottenExactly(s, e, t, id, k);
    }
    forall id | TracksAs(t, id, k) && !TracksAs(s, id, k)
      ensures (e.UploadLog? || e.Outcome?) && e.id == id && e.key == k
    {
      NewTracker(s, e, t, id, k);
    }
    hide Next, TracksAs;
    if Strands(s, e, k) {
      var id :| TracksAs(s, id, k);
      StrandedStays(s, e, t, id, k);
    }
  }

  /** A job can only cease to track an object in steps that delete none. */
  lemma StrandedStays(s: State, e: Event, t: State, id: nat, k: Key)
    requires Next(s, e, t) && Forgets(s, e, id, k)
    ensures t.logs == s.logs
    ensures e.Outcome? && e.key == k && TracksAs(t, e.id, k) ==> !(e.id in s.jobs && s.jobs[e.id].logState == Purged)
  {
  }

  ghost predicate StrandsNothing(s: State, e: Event) {
    forall k :: !Strands(s, e, k)
  }

  lemma NoStrayStep(s: State, e: Event, t: State)
    requires TableInv(s.jobs) && Next(s, e, t) && NoStray(s)
    ensures NoStray(t) <==> StrandsNothing(s, e)
  {
    forall k | k in s.logs
      ensures k in t.logs && !Tracked(t, k) <==> Strands(s, e, k)
    {
      StrandedExactly(s, e, t, k);
    }
    assert forall k :: k in t.logs && k !in s.logs ==> e.UploadLog? && e.key == k && TracksAs(t, e.id, k);
    hide Next, TracksAs, Forgets;
  }

  /** Over every run: no object is ever left that no unpurged row and no pending upload names, if and only if no step
      strands one. */
  lemma {:induction false} NoStrayExactly(states: seq<State>, events: seq<Event>, n: nat)
    requires Run(states, events) && TableInv(states[0].jobs) && NoStray(states[0]) && n < |states|
    ensures (forall i :: 0 <= i <= n ==> NoStray(states[i])) <==> (forall i :: 0 <= i < n ==> StrandsNothing(states[i], events[i]))
  {
    hide Next, TableInv, NoStray, StrandsNothing;
    if n > 0 {
      NoStrayExactly(states, events, n - 1);
      RunKeepsTable(states, events, n - 1);
      assert Next(states[n - 1], events[n - 1], states[n - 1 + 1]);
      if NoStray(states[n - 1]) {
        NoStrayStep(states[n - 1], events[n - 1], states[n]);
      }
    }
  }

  /** What is asked of one key `k`, of the jobs `sharers` that it belongs to: their outcomes are settled on it and none is
      given up, no other job reports or uploads it, and none uploads it between its delete and its purge. */
  ghost predicate Orderly(s: State, e: Event, sharers: iset<nat>, k: Key) {
    && (forall id :: id in sharers ==> SettledFor(s, e, id, k))
    && ((e.Outcome? || e.UploadLog?) && e.key == k ==> e.id in sharers)
    && (e.Abandon? ==> e.key != k)
    && (e.UploadLog? && e.key == k ==> !Erasing(s, k))
  }

  predicate Erasing(s: State, k: Key) {
    s.pass.Sweeping? && s.pass.erased.Some? && s.pass.erased.value.1 == k
  }

  /** Only its sharers know `k`, they know nothing else, and it is gone between its delete and its purge. */
  ghost predicate KeyFor(s: State, sharers: iset<nat>, k: Key) {
    && (forall id :: id in sharers ==> RowFor(s, id, k))
    && (forall id :: TracksAs(s, id, k) ==> id in sharers)
    && (Erasing(s, k) ==> k !in s.logs)
  }

  lemma OrderlyKeepsKey(s: State, e: Event, t: State, sharers: iset<nat>, k: Key)
    requires TableInv(s.jobs) && KeyFor(s, sharers, k) && Next(s, e, t) && Orderly(s, e, sharers, k)
    ensures KeyFor(t, sharers, k)
  {
    forall id | id in sharers
      ensures RowFor(t, id, k)
    {
      NextKeepsRow(s, e, t, id, k);
    }
    forall id | TracksAs(t, id, k)
      ensures id in sharers
    {
      if !TracksAs(s, id, k) {
        NewTracker(s, e, t, id, k);
      }
    }
    hide RowFor, TracksAs, TableInv, ReserveStmt, SettledFor;
  }

  lemma OrderlyDoesNotStrand(s: State, e: Event, t: State, sharers: iset<nat>, k: Key)
    requires TableInv(s.jobs) && KeyFor(s, sharers, k) && Next(s, e, t) && Orderly(s, e, sharers, k)
    ensures !Strands(s, e, k)
  {
    if id :| TracksAs(s, id, k) {
      assert id in sharers && RowFor(s, id, k) && SettledFor(s, e, id, k);
      assert e.PurgeRow? && Forgets(s, e, id, k) ==> Erasing(s, k);
    }
  }

  /** So, key by key and whatever happens to other keys: in every run orderly for `k`, crashes and failed deletes
      included, the log object `k` is never lost track of. */
  lemma {:induction false} OrderlyKeyIsTracked(states: seq<State>, events: seq<Event>, sharers: iset<nat>, k: Key, n: nat)
    requires Run(states, events) && TableInv(states[0].jobs) && KeyFor(states[0], sharers, k) && n < |states|
    requires k in states[0].logs ==> Tracked(states[0], k)
    requires forall i :: 0 <= i < n ==> Orderly(states[i], events[i], sharers, k)
    ensures KeyFor(states[n], sharers, k) && (k in states[n].logs ==> Tracked(states[n], k))
  {
    hide Next, TableInv, KeyFor, Orderly, Strands, Tracked;
    if n > 0 {
      OrderlyKeyIsTracked(states, events, sharers, k, n - 1);
      RunKeepsTable(states, events, n - 1);
      assert Next(states[n - 1], events[n - 1], states[n - 1 + 1]) && Orderly(states[n - 1], events[n - 1], sharers, k);
      OrderlyKeepsKey(states[n - 1], events[n - 1], states[n], sharers, k);
      OrderlyDoesNotStrand(states[n - 1], events[n - 1], states[n], sharers, k);
      if k in states[n - 1].logs {
        StrandedExactly(states[n - 1], events[n - 1], states[n], k);
      } else if k in states[n].logs {
        NewObjectIsTracked(states[n - 1], events[n - 1], states[n], k);
      }
    }
  }

  lemma NewObjectIsTracked(s: State, e: Event, t: State, k: Key)
    requires Next(s, e, t) && k !in s.logs && k in t.logs
    ensures Tracked(t, k)
  {
    assert e.UploadLog? && TracksAs(t, e.id, k);
  }

  const RERUN: Job := Job("t", "d", Completed, 0, Some(0), None, Purged)

  /** A job run again after its log was purged: the new log is uploaded and reported, the row stays purged, and no sweep
      will ever get to the object. */
  lemma ReportedAfterPurgeIsStray(k: Key) returns (states: seq<State>, events: seq<Event>)
    ensures Run(states, events) && |events| == 2 && TableInv(states[0].jobs) && NoStray(states[0])
    ensures k in states[2].logs && !Tracked(states[2], k)
  {
    var s0 := State(map[1 := RERUN], 0, Resting, {}, {});
    var s1 := s0.(logs := {k}, pending := {(1, k)});
    var s2 := s1.(jobs := Finish(s1.jobs, 1, "t", "d", true, k, 0), pending := {});
    states, events := [s0, s1, s2], [UploadLog(1, k), Outcome(1, "t", "d", true, k)];
    assert s1.pending - {(1, k)} == {};
    assert Next(s0, events[0], s1) && Next(s1, events[1], s2);
    assert forall id :: !TracksAs(s2, id, k);
  }

  // ----- whether a kept log is there -----

  /** The call removes the object. */
  predicate Erases(e: Event, k: Key) {
    (e.DeleteSucceeds? && e.row.1 == k) || (e.DeleteFails? && e.lost && e.row.1 == k)
  }

  /** Over every run: an object stays there throughout exactly when no delete of its key takes effect. */
  lemma {:induction false} ObjectStaysExactly(states: seq<State>, events: seq<Event>, k: Key, m: nat, n: nat)
    requires Run(states, events) && m <= n < |states| && k in states[m].logs
    ensures (forall i :: m <= i <= n ==> k in states[i].logs) <==> (forall i :: m <= i < n ==> !Erases(events[i], k))
    decreases n
  {
    if m < n {
      ObjectStaysExactly(states, events, k, m, n - 1);
      assert Next(states[n - 1], events[n - 1], states[n - 1 + 1]);
    }
  }

  /** The rows a sweep still has to deal with are marked, each is there once, and the one being purged is not among them. */
  ghost predicate TodoMarked(s: State) {
    s.pass.Sweeping? ==>
      && (forall r :: r in s.pass.todo ==> r.0 in s.jobs && s.jobs[r.0].logState == Marked)
      && (forall r, q :: r in s.pass.todo && q in s.pass.todo && r.0 == q.0 ==> r == q)
      && (s.pass.erased.Some? ==> forall r :: r in s.pass.todo ==> r.0 != s.pass.erased.value.0)
  }

  lemma NextKeepsTodo(s: State, e: Event, t: State)
    requires TableInv(s.jobs) && TodoMarked(s) && Next(s, e, t)
    ensures TodoMarked(t)
  {
    hide UniqueRunning;
  }

  lemma {:induction false} RunKeepsTodo(states: seq<State>, events: seq<Event>, n: nat)
    requires Run(states, events) && TableInv(states[0].jobs) && TodoMarked(states[0]) && n < |states|
    ensures TodoMarked(states[n])
  {
    hide Next, TableInv, TodoMarked;
    if n > 0 {
      RunKeepsTodo(states, events, n - 1);
      RunKeepsTable(states, events, n - 1);
      assert Next(states[n - 1], events[n - 1], states[n - 1 + 1]);
      NextKeepsTodo(states[n - 1], events[n - 1], states[n]);
    }
  }

  /** Another job's row is due and its sweep takes the object `k` away. */
  ghost predicate ErasedForAnother(s: State, e: Event, id: nat, k: Key) {
    Erases(e, k) && e.row.0 != id && e.row.0 in s.jobs && s.jobs[e.row.0].logState == Marked
  }

  /** In every run, a log within its retention is there throughout exactly when no sweep deletes its key for another job:
      its own row, still `Present`, is never the cause. */
  lemma PresentLogExactly(states: seq<State>, events: seq<Event>, id: nat, k: Key, m: nat, n: nat)
    requires Run(states, events) && TableInv(states[0].jobs) && TodoMarked(states[0]) && m <= n < |states| && k in states[m].logs
    requires forall i :: m <= i <= n ==> id in states[i].jobs && states[i].jobs[id].logState == Present
    ensures (forall i :: m <= i <= n ==> k in states[i].logs)
       <==> (forall i :: m <= i < n ==> !ErasedForAnother(states[i], events[i], id, k))
  {
    ObjectStaysExactly(states, events, k, m, n);
    forall i | m <= i < n && Erases(events[i], k)
      ensures ErasedForAnother(states[i], events[i], id, k)
    {
      RunKeepsTodo(states, events, i);
      assert Next(states[i], events[i], states[i + 1]);
    }
  }

  function Report(at: Time, k: Key): Job {
    Job("t", "d", Completed, at, Some(at), Some(k), Present)
  }

  function TwoBuilds(k: Key): Table {
    map[1 := Report(0, k), 2 := Report(99, k)]
  }

  function FirstIsDue(k: Key): Table {
    map[1 := Report(0, k).(logState := Marked), 2 := Report(99, k)]
  }

  lemma TwoBuildsTables(k: Key)
    ensures Finish(map[], 1, "t", "d", true, k, 0) == map[1 := Report(0, k)]
    ensures Finish(map[1 := Report(0, k)], 2, "t", "d", true, k, 99) == TwoBuilds(k)
    ensures MarkLogs(TwoBuilds(k), 100, 50) == FirstIsDue(k)
  {
  }

  lemma OnlyFirstIsDue(k: Key)
    ensures MarkedKeys(FirstIsDue(k)) == {(1, k)} && !Blocked(FirstIsDue(k))
    ensures 2 in FirstIsDue(k) && FirstIsDue(k)[2] == Report(99, k)
  {
    var due := FirstIsDue(k);
    assert forall id :: id in due && due[id].logState == Marked ==> id == 1;
    assert (1, due[1].logKey.value) in MarkedKeys(due);
  }

  /** Two builds of one derivation: the first one's log falls due and takes the second one's with it. */
  lemma SharedLogIsLost(k: Key) returns (states: seq<State>, events: seq<Event>)
    ensures Run(states, events) && |events| == 7 && states[0] == State(map[], 0, Resting, {}, {})
    ensures events[4] == MarkExpired(50) && events[6] == DeleteSucceeds((1, k)) && states[7].now == 100
    ensures 2 in states[7].jobs && states[7].jobs[2] == Report(99, k) && k !in states[7].logs
  {
    TwoBuildsTables(k);
    OnlyFirstIsDue(k);
    hide Finish, MarkLogs, MarkedKeys, Blocked, FirstIsDue, TwoBuilds;
    var s0 := State(map[], 0, Resting, {}, {});
    var s1 := State(map[], 0, Resting, {k}, {(1, k)});
    var s2 := State(map[1 := Report(0, k)], 0, Resting, {k}, {});
    var s3 := s2.(now := 99, pending := {(2, k)});
    var s4 := State(TwoBuilds(k), 99, Resting, {k}, {});
    var s5 := State(FirstIsDue(k), 100, Scanning, {k}, {});
    var s6 := s5.(pass := Sweeping({(1, k)}, None));
    var s7 := s5.(pass := Sweeping({}, Some((1, k))), logs := {});
    assert Next(s0, UploadLog(1, k), s1);
    assert Next(s1, Outcome(1, "t", "d", true, k), s2);
    assert Next(s2, UploadLog(2, k), s3);
    assert Next(s3, Outcome(2, "t", "d", true, k), s4);
    assert Next(s4, MarkExpired(50), s5);
    assert Next(s5, ScanLogs, s6);
    assert Next(s6, DeleteSucceeds((1, k)), s7);
    hide Next;
    states := [s0, s1, s2, s3, s4, s5, s6, s7];
    events := [UploadLog(1, k), Outcome(1, "t", "d", true, k), UploadLog(2, k), Outcome(2, "t", "d", true, k),
               MarkExpired(50), ScanLogs, DeleteSucceeds((1, k))];
  }

  // ----- the methods -----

  lemma SweepStarts(jobs: Table, logs: set<Key>, done: set<nat>, outcome: nat -> GcPass.Deletion)
    requires forall id :: id in jobs && id in done ==> jobs[id].logState != Marked
    ensures SweptLogs(jobs, done, outcome) == jobs && Hits(jobs, done, outcome) == {}
    ensures SweptObjects(jobs, logs, done, outcome) == logs
  {
  }

  lemma SweepEnds(jobs: Table, logs: set<Key>, done: set<nat>, outcome: nat -> GcPass.Deletion)
    requires jobs.Keys <= done
    ensures SweptLogs(jobs, done, outcome) == SweptLogs(jobs, jobs.Keys, outcome)
    ensures Hits(jobs, done, outcome) == Hits(jobs, jobs.Keys, outcome)
    ensures SweptObjects(jobs, logs, done, outcome) == SweptObjects(jobs, logs, jobs.Keys, outcome)
  {
  }

  lemma SweepRow(jobs: Table, done: set<nat>, id: nat, outcome: nat -> GcPass.Deletion)
    requires id in jobs && id !in done && Sweepable(jobs[id])
    ensures id in SweptLogs(jobs, done, outcome) && SweptLogs(jobs, done, outcome)[id] == jobs[id]
    ensures SweptLogs(jobs, done + {id}, outcome)
         == if outcome(id) == GcPass.Deleted then Purge(SweptLogs(jobs, done, outcome), id) else SweptLogs(jobs, done, outcome)
    ensures |Hits(jobs, done + {id}, outcome)| == |Hits(jobs, done, outcome)| + if outcome(id) == GcPass.Deleted then 1 else 0
  {
    assert Hits(jobs, done + {id}, outcome)
        == Hits(jobs, done, outcome) + if outcome(id) == GcPass.Deleted then {id} else {};
  }

  lemma SweepObject(jobs: Table, logs: set<Key>, done: set<nat>, id: nat, outcome: nat -> GcPass.Deletion)
    requires id in jobs && id !in done && Sweepable(jobs[id])
    ensures SweptObjects(jobs, logs, done + {id}, outcome)
         == SweptObjects(jobs, logs, done, outcome) - if outcome(id) == GcPass.FailedKept then {} else {jobs[id].logKey.value}
  {
  }

  class LogCollector {
    var jobs: Table
    var logs: set<Key>

    constructor (jobs: Table, logs: set<Key>)
      ensures this.jobs == jobs && this.logs == logs
    {
      this.jobs, this.logs := jobs, logs;
    }

    /** `sweep_job_logs`: nothing when a marked row has no key to read; otherwise every marked row whose object
        deletes is purged, and the others are left for the next pass. */
    method SweepJobLogs(outcome: nat -> GcPass.Deletion) returns (purged: Option<nat>)
      modifies this
      ensures purged.None? <==> Blocked(old(jobs))
      ensures purged.None? ==> jobs == old(jobs) && logs == old(logs)
      ensures purged.Some? ==> jobs == SweptLogs(old(jobs), old(jobs).Keys, outcome)
      ensures purged.Some? ==> logs == SweptObjects(old(jobs), old(logs), old(jobs).Keys, outcome)
      ensures purged.Some? ==> purged.value == |Hits(old(jobs), old(jobs).Keys, outcome)|
    {
      hide Purge, SweptLogs, SweptObjects, Hits;
      if id :| id in jobs && jobs[id].logState == Marked && jobs[id].logKey.None? {
        assert Keyless(jobs, id);
        return None;
      }
      ghost var before, had := jobs, logs;
      var todo := set id | id in jobs && jobs[id].logState == Marked;
      ghost var done: set<nat> := before.Keys - todo;
      var n := 0;
      SweepStarts(before, had, done, outcome);
      while todo != {}
        invariant todo <= before.Keys && forall id :: id in before ==> (id in todo <==> id !in done)
        invariant forall id :: id in todo ==> Sweepable(before[id])
        invariant jobs == SweptLogs(before, done, outcome) && logs == SweptObjects(before, had, done, outcome)
        invariant n == |Hits(before, done, outcome)|
        decreases todo
      {
        var id :| id in todo;
        SweepRow(before, done, id, outcome);
        SweepObject(before, had, done, id, outcome);
        var o := outcome(id);
        if o != GcPass.FailedKept {
          logs := logs - {jobs[id].logKey.value};
        }
        if o == GcPass.Deleted {
          jobs := Purge(jobs, id);
          n := n + 1;
        }
        todo, done := todo - {id}, done + {id};
      }
      assert forall id :: id in before.Keys ==> id in done;
      SweepEnds(before, had, done, outcome);
      purged := Some(n);
    }

    /** The job half of `run_locked`: an error from the sweep ends the pass. */
    method RunJobPass(c: Schedule, outcome: nat -> GcPass.Deletion) returns (ok: bool)
      modifies this
      ensures jobs == JobPass(old(jobs), c, outcome) && logs == LogsAfterPass(old(jobs), old(logs), c, outcome)
      ensures ok <==> !Blocked(MarkLogs(old(jobs), c.markAt, c.logAfter))
    {
      hide Blocked, MarkLogs, SweptLogs, SweptObjects, ReapJobs, Reclaim;
      jobs := MarkLogs(jobs, c.markAt, c.logAfter);
      var purged := SweepJobLogs(outcome);
      if purged.None? {
        return false;
      }
      jobs := ReapJobs(jobs, c.reapAt, c.rowAfter);
      jobs := Reclaim(jobs, c.reclaimAt, c.stuckAfter);
      ok := true;
    }
  }

  // ----- an undisturbed pass -----

  /** `states` and `events` make a run from `s` to `t`. */
  ghost predicate Reaches(states: seq<State>, events: seq<Event>, s: State, t: State) {
    Run(states, events) && states[0] == s && states[|events|] == t
  }

  lemma StartRun(s: State)
    ensures Reaches([s], [], s, s)
  {
  }

  lemma Extend(states: seq<State>, events: seq<Event>, s: State, m: State, e: Event, t: State)
    requires Reaches(states, events, s, m) && Next(m, e, t)
    ensures Reaches(states + [t], events + [e], s, t)
  {
    hide Next;
    var longer, more := states + [t], events + [e];
    forall i | 0 <= i < |more|
      ensures Next(longer[i], more[i], longer[i + 1])
    {
      if i < |events| {
        assert Next(states[i], events[i], states[i + 1]);
      }
    }
  }

  /** The sweepable rows not yet visited. */
  ghost function TodoOf(jobs: Table, done: set<nat>): set<(nat, Key)> {
    set id | id in jobs && Sweepable(jobs[id]) && id !in done :: (id, jobs[id].logKey.value)
  }

  lemma TodoStep(jobs: Table, done: set<nat>, id: nat)
    requires id in jobs && Sweepable(jobs[id]) && id !in done
    ensures (id, jobs[id].logKey.value) in TodoOf(jobs, done)
    ensures TodoOf(jobs, done + {id}) == TodoOf(jobs, done) - {(id, jobs[id].logKey.value)}
  {
  }

  /** The sweep of `jobs` and `logs`, having visited the rows in `done`. */
  ghost predicate Visited(s: State, jobs: Table, logs: set<Key>, done: set<nat>, outcome: nat -> GcPass.Deletion) {
    && s.pass == Sweeping(TodoOf(jobs, done), None)
    && s.jobs == SweptLogs(jobs, done, outcome) && s.logs == SweptObjects(jobs, logs, done, outcome)
  }

  /** One turn of the loop is one or two steps. */
  lemma VisitIsARun(states: seq<State>, events: seq<Event>, s0: State, s: State, jobs: Table, logs: set<Key>,
                    done: set<nat>, outcome: nat -> GcPass.Deletion, id: nat)
      returns (longer: seq<State>, more: seq<Event>, t: State)
    requires Reaches(states, events, s0, s) && Visited(s, jobs, logs, done, outcome)
    requires id in jobs && Sweepable(jobs[id]) && id !in done
    ensures Reaches(longer, more, s0, t) && Visited(t, jobs, logs, done + {id}, outcome)
    ensures t.now == s.now && t.pending == s.pending
  {
    TodoStep(jobs, done, id);
    SweepRow(jobs, done, id, outcome);
    SweepObject(jobs, logs, done, id, outcome);
    hide Reaches, SweptLogs, SweptObjects, TodoOf, Hits;
    var row := (id, jobs[id].logKey.value);
    if outcome(id) == GcPass.Deleted {
      var m := s.(pass := Sweeping(s.pass.todo - {row}, Some(row)), logs := s.logs - {row.1});
      t := m.(jobs := Purge(m.jobs, id), pass := Sweeping(m.pass.todo, None));
      Extend(states, events, s0, s, DeleteSucceeds(row), m);
      Extend(states + [m], events + [DeleteSucceeds(row)], s0, m, PurgeRow, t);
      longer, more := states + [m] + [t], events + [DeleteSucceeds(row)] + [PurgeRow];
    } else {
      var lost := outcome(id) == GcPass.FailedLost;
      t := s.(pass := Sweeping(s.pass.todo - {row}, None), logs := if lost then s.logs - {row.1} else s.logs);
      Extend(states, events, s0, s, DeleteFails(row, lost), t);
      longer, more := states + [t], events + [DeleteFails(row, lost)];
    }
  }

  lemma {:induction false} SweepIsARun(states: seq<State>, events: seq<Event>, s0: State, s: State, jobs: Table, logs: set<Key>,
                                       done: set<nat>, outcome: nat -> GcPass.Deletion)
      returns (longer: seq<State>, more: seq<Event>, t: State)
    requires Reaches(states, events, s0, s) && Visited(s, jobs, logs, done, outcome)
    ensures Reaches(longer, more, s0, t) && t.now == s.now && t.pending == s.pending
    ensures t.pass == Sweeping({}, None)
    ensures t.jobs == SweptLogs(jobs, jobs.Keys, outcome) && t.logs == SweptObjects(jobs, logs, jobs.Keys, outcome)
    decreases jobs.Keys - done
  {
    hide Reaches, SweptLogs, SweptObjects;
    if id :| id in jobs && Sweepable(jobs[id]) && id !in done {
      longer, more, t := VisitIsARun(states, events, s0, s, jobs, logs, done, outcome, id);
      longer, more, t := SweepIsARun(longer, more, s0, t, jobs, logs, done + {id}, outcome);
    } else {
      assert TodoOf(jobs, done) == {};
      AllVisited(jobs, logs, done, outcome);
      longer, more, t := states, events, s;
    }
  }

  lemma AllVisited(jobs: Table, logs: set<Key>, done: set<nat>, outcome: nat -> GcPass.Deletion)
    requires forall id :: id in jobs && Sweepable(jobs[id]) ==> id in done
    ensures SweptLogs(jobs, done, outcome) == SweptLogs(jobs, jobs.Keys, outcome)
    ensures SweptObjects(jobs, logs, done, outcome) == SweptObjects(jobs, logs, jobs.Keys, outcome)
  {
  }

  lemma NoneVisited(jobs: Table, logs: set<Key>, outcome: nat -> GcPass.Deletion)
    ensures MarkedKeys(jobs) == TodoOf(jobs, {})
    ensures SweptLogs(jobs, {}, outcome) == jobs && SweptObjects(jobs, logs, {}, outcome) == logs
  {
  }

  /** A pass nobody disturbs is a run of the machine, and ends with what `RunJobPass` computes. */
  lemma JobPassIsARun(s: State, c: Schedule, outcome: nat -> GcPass.Deletion)
      returns (states: seq<State>, events: seq<Event>, t: State)
    requires s.pass.Resting? && s.now <= c.markAt <= c.reapAt <= c.reclaimAt
    ensures Reaches(states, events, s, t) && t.pass.Resting? && t.pending == s.pending
    ensures t.jobs == JobPass(s.jobs, c, outcome) && t.logs == LogsAfterPass(s.jobs, s.logs, c, outcome)
  {
    hide Reaches, MarkLogs, SweptLogs, SweptObjects, ReapJobs, Reclaim, MarkedKeys, TodoOf;
    var marked := MarkLogs(s.jobs, c.markAt, c.logAfter);
    var s1 := s.(jobs := marked, pass := Scanning, now := c.markAt);
    StartRun(s);
    Extend([s], [], s, s, MarkExpired(c.logAfter), s1);
    states, events := [s] + [s1], [] + [MarkExpired(c.logAfter)];
    if Blocked(marked) {
      t := s1.(pass := Resting);
      Extend(states, events, s, s1, ScanFails, t);
      states, events := states + [t], events + [ScanFails];
    } else {
      NoneVisited(marked, s.logs, outcome);
      var s2 := s1.(pass := Sweeping(MarkedKeys(marked), None));
      Extend(states, events, s, s1, ScanLogs, s2);
      var s3;
      states, events, s3 := SweepIsARun(states + [s2], events + [ScanLogs], s, s2, marked, s.logs, {}, outcome);
      var s4 := s3.(pass := Reaping);
      var s5 := s4.(jobs := ReapJobs(s4.jobs, c.reapAt, c.rowAfter), pass := Reclaiming, now := c.reapAt);
      t := s5.(jobs := Reclaim(s5.jobs, c.reclaimAt, c.stuckAfter), pass := Resting, now := c.reclaimAt);
      Extend(states, events, s, s3, EndSweep, s4);
      Extend(states + [s4], events + [EndSweep], s, s4, Reap(c.rowAfter), s5);
      Extend(states + [s4] + [s5], events + [EndSweep] + [Reap(c.rowAfter)], s, s5, ReclaimStuck(c.stuckAfter), t);
      states, events := states + [s4] + [s5] + [t], events + [EndSweep] + [Reap(c.rowAfter)] + [ReclaimStuck(c.stuckAfter)];
    }
  }
}
