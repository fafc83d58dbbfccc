/** The collector against concurrent writers, one step per SQL statement or object-store call, with a crash
    possible between any two (`crates/server/src/gc.rs`, `crates/server/src/postgres_store.rs`,
    `crates/server/src/daemon_rpc.rs`). One pass runs at a time: passes hold the advisory lock. */
module GcRuns {
  import opened Numerals
  import opened Trust
  import opened GcTables
  import opened GcMark
  import opened GcPass

  /** The key a sweep is working on, tombstoned, and whether its bytes have been deleted. */
  datatype Current = Current(key: Key, erased: bool)

  /** Where the collector is. `todo` holds the scanned keys not yet dealt with, the current one included. */
  datatype Phase = Resting | Sweeping(todo: set<Key>, cur: Option<Current>)

  /** Where a write is: about to look for the object row, about to upload, or about to record. */
  datatype Stage = Checking | Uploading | Ready

  /** A push, build result or materialisation that has not recorded its row yet. */
  datatype Job = Job(id: RowId, tier: Tier, refs: seq<string>, key: Key, stage: Stage)

  /** `abandoned` holds the keys uploaded by writes that died before recording, until they are recorded or erased. */
  datatype State = State(paths: Paths, objects: set<Key>, bytes: set<Key>, queue: seq<Access>,
                         phase: Phase, jobs: map<nat, Job>, abandoned: set<Key>)

  datatype Event =
    | Enqueue(access: Access)
    | DrainQueue(claimed: seq<Access>, rest: seq<Access>)
    | Mark(c: Cutoffs, now: Time)
    | Scan
    | TombstoneKey(key: Key)
    | EraseSucceeds
    | EraseFails(lost: bool)
    | DropObject
    | ReapRows
    | Crash
    | Begin(j: nat, job: Job)
    | Check(j: nat)
    | Upload(j: nat)
    | Materialise(j: nat, id: RowId, source: RowId)
    | Record(j: nat, now: Time)
    | Abort(j: nat)

  function Todo(s: State): set<Key> {
    if s.phase.Sweeping? then s.phase.todo else {}
  }

  // ----- steps -----

  /** A verified push first looks for the object row; others upload at once. */
  function FirstStage(tier: Tier): Stage {
    if tier == Verified then Checking else Uploading
  }

  predicate Collecting(s: State) {
    s.phase.Sweeping? && s.phase.cur.Some?
  }

  predicate IsCollectorEvent(e: Event) {
    e.DrainQueue? || e.Mark? || e.Scan? || e.TombstoneKey? || e.EraseSucceeds? || e.EraseFails? ||
    e.DropObject? || e.ReapRows? || e.Crash?
  }

  ghost predicate CollectorStep(s: State, e: Event, t: State)
    requires IsCollectorEvent(e)
  {
    match e
    case DrainQueue(claimed, rest) =>
      && s.phase.Resting? && multiset(claimed) + multiset(rest) == multiset(s.queue)
      && t == s.(paths := Drain(s.paths, claimed), queue := rest)
    case Mark(c, now) =>
      s.phase.Resting? && IsMarked(s.paths, t.paths, c, now) && t == s.(paths := t.paths)
    case Scan =>
      s.phase.Resting? && t == s.(phase := Sweeping(Candidates(s.paths, s.objects), None))
    case TombstoneKey(key) =>
      && s.phase.Sweeping? && s.phase.cur.None? && key in s.phase.todo
      && t == s.(paths := Tombstone(s.paths, key), phase := s.phase.(cur := Some(Current(key, false))))
    case EraseSucceeds =>
      && Collecting(s) && !s.phase.cur.value.erased
      && var k := s.phase.cur.value.key;
         t == s.(bytes := s.bytes - {k}, abandoned := s.abandoned - {k}, phase := s.phase.(cur := Some(Current(k, true))))
    case EraseFails(lost) =>
      && Collecting(s) && !s.phase.cur.value.erased
      && var k := s.phase.cur.value.key;
         t == s.(bytes := if lost then s.bytes - {k} else s.bytes,
                 abandoned := if lost then s.abandoned - {k} else s.abandoned, phase := Sweeping(s.phase.todo - {k}, None))
    case DropObject =>
      && Collecting(s) && s.phase.cur.value.erased
      && var k := s.phase.cur.value.key;
         t == s.(paths := Forget(s.paths, k), objects := s.objects - {k}, phase := Sweeping(s.phase.todo - {k}, None))
    case ReapRows =>
      && s.phase == Sweeping({}, None)
      && t == s.(paths := Reap(s.paths, s.objects), phase := Resting)
    case Crash => t == s.(phase := Resting)
  }

  ghost predicate WriterStep(s: State, e: Event, t: State)
    requires !IsCollectorEvent(e)
  {
    match e
    case Enqueue(access) => t == s.(queue := s.queue + [access])
    case Begin(j, job) =>
      && j !in s.jobs && job.stage == FirstStage(job.tier)
      && t == s.(jobs := s.jobs[j := job])
    case Check(j) =>
      && j in s.jobs && s.jobs[j].stage == Checking
      && t == s.(jobs := s.jobs[j := s.jobs[j].(stage := if s.jobs[j].key in s.objects then Ready else Uploading)])
    case Upload(j) =>
      && j in s.jobs && s.jobs[j].stage == Uploading
      && t == s.(bytes := s.bytes + {s.jobs[j].key}, jobs := s.jobs[j := s.jobs[j].(stage := Ready)])
    case Materialise(j, id, source) =>
      && j !in s.jobs && source in s.paths && s.paths[source].state == Live
      && s.paths[source].objectKey.Some? && s.paths[source].objectKey.value in s.objects
      && var r := s.paths[source];
         t == s.(jobs := s.jobs[j := Job(id, r.tier, r.refs, r.objectKey.value, Ready)])
    case Record(j, now) =>
      && j in s.jobs && s.jobs[j].stage == Ready
      && var job := s.jobs[j];
         t == s.(objects := s.objects + {job.key},
                 paths := Upsert(s.paths, job.id, job.tier, job.refs, job.key, now),
                 jobs := s.jobs - {j}, abandoned := s.abandoned - {job.key})
    case Abort(j) =>
      && j in s.jobs
      && t == s.(jobs := s.jobs - {j},
                 abandoned := if s.jobs[j].stage == Ready then s.abandoned + {s.jobs[j].key} else s.abandoned)
  }

  ghost predicate Next(s: State, e: Event, t: State) {
    if IsCollectorEvent(e) then CollectorStep(s, e, t) else WriterStep(s, e, t)
  }

  // ----- the invariant, key by key -----

  /** What holds of every state whatever the writers do. */
  ghost predicate Shape(s: State) {
    && ForeignKey(s.paths, s.objects)
    && (s.phase.Sweeping? ==> s.phase.todo <= s.objects)
    && (Collecting(s) ==> s.phase.cur.value.key in s.phase.todo)
  }

  predicate IsCurrent(s: State, k: Key) {
    Collecting(s) && s.phase.cur.value.key == k
  }

  /** A live or marked row that names `k` has its bytes; none is live while `k` is still to be swept, and none is
      marked either once its turn has come. */
  ghost predicate RowsHaveBytes(s: State, k: Key) {
    forall id :: id in s.paths && Names(s.paths[id], k) && s.paths[id].state != Purging ==>
      && k in s.bytes
      && (k in Todo(s) ==> s.paths[id].state == Marked)
      && !IsCurrent(s, k)
  }

  ghost predicate JobsHaveBytes(s: State, k: Key) {
    forall j :: j in s.jobs && s.jobs[j].key == k && s.jobs[j].stage == Ready ==> k in s.bytes
  }

  predicate Uploaded(s: State, j: nat, k: Key) {
    j in s.jobs && s.jobs[j].stage == Ready && s.jobs[j].key == k
  }

  /** Bytes nobody can name come only from writes that died between uploading and recording. */
  ghost predicate NoOrphan(s: State, k: Key) {
    k in s.bytes ==> k in s.objects || k in s.abandoned || exists j :: Uploaded(s, j, k)
  }

  ghost predicate InvFor(s: State, k: Key) {
    && RowsHaveBytes(s, k) && JobsHaveBytes(s, k) && NoOrphan(s, k)
    && (IsCurrent(s, k) && s.phase.cur.value.erased ==> k !in s.bytes)
  }

  /** An `objects` row that has outlived its bytes. */
  predicate Hollow(s: State, key: Key) {
    key in s.objects && key !in s.bytes
  }

  /** The collector is in the way of a write of this key. */
  predicate InTheWay(s: State, key: Key, stage: Stage) {
    key in Todo(s) || (stage == Checking && Hollow(s, key))
  }

  /** The collector is in the way of no pending write of this key. */
  ghost predicate ClearFor(s: State, k: Key) {
    forall j :: j in s.jobs && s.jobs[j].key == k ==> !InTheWay(s, k, s.jobs[j].stage)
  }

  /** No live or marked row that names `k` is deleted or left without a key. */
  ghost predicate KeepsKeys(s: State, t: State, k: Key) {
    forall id :: id in s.paths && Names(s.paths[id], k) && s.paths[id].state != Purging ==>
      id in t.paths && t.paths[id].objectKey.Some?
  }

  lemma NextKeepsShape(s: State, e: Event, t: State)
    requires Shape(s) && Next(s, e, t)
    ensures Shape(t)
  {
    hide Fresh, Latest;
  }

  lemma CollectorLeavesNoOrphan(s: State, e: Event, t: State, k: Key)
    requires NoOrphan(s, k) && IsCollectorEvent(e) && CollectorStep(s, e, t)
    requires IsCurrent(s, k) && s.phase.cur.value.erased ==> k !in s.bytes
    ensures NoOrphan(t, k)
  {
    hide Fresh, Latest, Candidates, Reap, Tombstone, Forget;
    assert forall j :: Uploaded(s, j, k) ==> Uploaded(t, j, k);
  }

  lemma CollectorKeepsFor(s: State, e: Event, t: State, k: Key)
    requires Shape(s) && InvFor(s, k) && ClearFor(s, k) && IsCollectorEvent(e) && CollectorStep(s, e, t)
    ensures InvFor(t, k) && KeepsKeys(s, t, k)
  {
    CollectorLeavesNoOrphan(s, e, t, k);
    hide Fresh, Latest, NoOrphan;
    assert t.jobs == s.jobs;
  }

  lemma WriterLeavesNoOrphan(s: State, e: Event, t: State, k: Key)
    requires NoOrphan(s, k) && !IsCollectorEvent(e) && WriterStep(s, e, t)
    ensures NoOrphan(t, k)
  {
    if j :| Uploaded(s, j, k) {
      assert Uploaded(t, j, k) || k in t.objects || k in t.abandoned;
    }
    assert e.Upload? ==> Uploaded(t, e.j, s.jobs[e.j].key);
  }

  lemma WriterKeepsFor(s: State, e: Event, t: State, k: Key)
    requires Shape(s) && InvFor(s, k) && ClearFor(s, k) && !IsCollectorEvent(e) && WriterStep(s, e, t)
    ensures InvFor(t, k) && KeepsKeys(s, t, k)
  {
    WriterLeavesNoOrphan(s, e, t, k);
    hide NoOrphan;
  }

  // ----- runs -----

  ghost predicate Step(s: State, t: State) {
    exists e :: Next(s, e, t)
  }

  ghost predicate Run(states: seq<State>) {
    |states| > 0 && forall i :: 0 <= i < |states| - 1 ==> Step(states[i], states[i + 1])
  }

  lemma StepKeepsFor(s: State, t: State, k: Key)
    requires Shape(s) && InvFor(s, k) && ClearFor(s, k) && Step(s, t)
    ensures InvFor(t, k) && KeepsKeys(s, t, k)
  {
    hide InvFor, ClearFor, KeepsKeys, Shape;
    var e :| Next(s, e, t);
    if IsCollectorEvent(e) {
      CollectorKeepsFor(s, e, t, k);
    } else {
      WriterKeepsFor(s, e, t, k);
    }
  }

  lemma {:induction false} RunKeepsShape(states: seq<State>, n: nat)
    requires Run(states) && Shape(states[0]) && n < |states|
    ensures Shape(states[n])
  {
    hide Shape;
    if n > 0 {
      RunKeepsShape(states, n - 1);
      assert Step(states[n - 1], states[n - 1 + 1]);
      var e :| Next(states[n - 1], e, states[n]);
      NextKeepsShape(states[n - 1], e, states[n]);
    }
  }

  /** Key by key: in every run in which the collector is in the way of no pending write of `k`, whatever happens to
      other keys, every live or marked row that names `k` has its bytes and keeps its key; so resurrecting it is safe. */
  lemma {:induction false} KeyIsSafe(states: seq<State>, k: Key, n: nat)
    requires Run(states) && Shape(states[0]) && InvFor(states[0], k) && n < |states|
    requires forall i :: 0 <= i < n ==> ClearFor(states[i], k)
    ensures forall i :: 0 <= i <= n ==> InvFor(states[i], k)
    ensures forall i :: 0 <= i < n ==> KeepsKeys(states[i], states[i + 1], k)
  {
    hide Shape, InvFor, ClearFor, KeepsKeys, Step;
    if n > 0 {
      KeyIsSafe(states, k, n - 1);
      RunKeepsShape(states, n - 1);
      assert ClearFor(states[n - 1], k) && InvFor(states[n - 1], k);
      assert Step(states[n - 1], states[n - 1 + 1]);
      StepKeepsFor(states[n - 1], states[n], k);
    }
  }

  // ----- all keys together -----

  /** Every live or marked row names a key whose bytes exist. */
  ghost predicate Safe(s: State) {
    forall id :: id in s.paths && s.paths[id].state != Purging ==>
      s.paths[id].objectKey.Some? && s.paths[id].objectKey.value in s.bytes
  }

  ghost predicate Inv(s: State) {
    Shape(s) && Safe(s) && forall k :: InvFor(s, k)
  }

  /** The collector is in no pending write's way. */
  ghost predicate Clear(s: State) {
    forall j :: j in s.jobs ==> !InTheWay(s, s.jobs[j].key, s.jobs[j].stage)
  }

  lemma ClearIsPerKey(s: State)
    ensures Clear(s) <==> forall k :: ClearFor(s, k)
  {
    if forall k :: ClearFor(s, k) {
      assert forall j :: j in s.jobs ==> ClearFor(s, s.jobs[j].key);
    }
  }

  predicate Initial(s: State) {
    s == State(map[], {}, {}, [], Resting, map[], {})
  }

  lemma InitialInv(s: State)
    requires Initial(s)
    ensures Inv(s)
  {
  }

  /** A row that is live or marked after a step was so before, or has just been recorded. */
  lemma NoneAppears(s: State, e: Event, t: State, id: RowId)
    requires Next(s, e, t) && id in t.paths && t.paths[id].state != Purging
    ensures (id in s.paths && s.paths[id].state != Purging) || t.paths[id].objectKey.Some?
  {
    hide Fresh, Latest;
  }

  lemma StepKeeps(s: State, t: State)
    requires Inv(s) && Clear(s) && Step(s, t)
    ensures Inv(t)
  {
    hide Next, Shape, InvFor, RowsHaveBytes, Clear, ClearFor;
    var e :| Next(s, e, t);
    NextKeepsShape(s, e, t);
    ClearIsPerKey(s);
    forall k
      ensures InvFor(t, k) && KeepsKeys(s, t, k)
    {
      StepKeepsFor(s, t, k);
    }
    forall id | id in t.paths && t.paths[id].state != Purging
      ensures t.paths[id].objectKey.Some? && t.paths[id].objectKey.value in t.bytes
    {
      NoneAppears(s, e, t, id);
      if id in s.paths && s.paths[id].state != Purging {
        assert KeepsKeys(s, t, s.paths[id].objectKey.value);
      }
      NamedHasBytes(t, id);
    }
  }

  lemma NamedHasBytes(s: State, id: RowId)
    requires id in s.paths && s.paths[id].state != Purging && s.paths[id].objectKey.Some?
    requires InvFor(s, s.paths[id].objectKey.value)
    ensures s.paths[id].objectKey.value in s.bytes
  {
    assert Names(s.paths[id], s.paths[id].objectKey.value);
  }

  /** In every run in which the collector is never in a pending write's way, every live or marked row names a key whose
      bytes exist; so a drain may resurrect any marked row. */
  lemma {:induction false} RunsAreSafe(states: seq<State>, n: nat)
    requires Run(states) && Inv(states[0]) && n < |states|
    requires forall i :: 0 <= i < n ==> Clear(states[i])
    ensures Inv(states[n])
  {
    hide Inv, Clear, Step;
    if n > 0 {
      RunsAreSafe(states, n - 1);
      assert Clear(states[n - 1]);
      assert Step(states[n - 1], states[n - 1 + 1]);
      StepKeeps(states[n - 1], states[n]);
    }
  }

  // ----- the proviso cannot be dropped -----

  lemma Extend(run: seq<State>, e: Event, t: State) returns (longer: seq<State>)
    requires Run(run) && Next(run[|run| - 1], e, t)
    ensures Run(longer) && longer[0] == run[0] && longer[|longer| - 1] == t
  {
    longer := run + [t];
    assert Step(run[|run| - 1], t);
    forall i | 0 <= i < |longer| - 1
      ensures Step(longer[i], longer[i + 1])
    {
      if i < |run| - 1 {
        assert Step(run[i], run[i + 1]);
      }
    }
  }

  /** A live row at `id` names `key`. */
  predicate LiveAt(s: State, id: RowId, key: Key) {
    id in s.paths && s.paths[id].state == Live && Names(s.paths[id], key)
  }

  /** A pending write can go on to record its row: without an upload if it is checking a key that has an `objects`
      row, and without touching what the collector is doing. */
  lemma FinishWrite(s: State, j: nat) returns (run: seq<State>)
    requires j in s.jobs
    ensures Run(run) && run[0] == s
    ensures var t := run[|run| - 1]; LiveAt(t, s.jobs[j].id, s.jobs[j].key) && t.phase == s.phase
    ensures s.jobs[j].stage == Checking && Hollow(s, s.jobs[j].key) ==> run[|run| - 1].bytes == s.bytes
  {
    var job, s1 := s.jobs[j], s;
    run := [s];
    if s1.jobs[j].stage == Checking {
      s1 := s1.(jobs := s1.jobs[j := job.(stage := if job.key in s.objects then Ready else Uploading)]);
      run := Extend(run, Check(j), s1);
    }
    if s1.jobs[j].stage == Uploading {
      var s2 := s1.(bytes := s1.bytes + {job.key}, jobs := s1.jobs[j := s1.jobs[j].(stage := Ready)]);
      run := Extend(run, Upload(j), s2);
      s1 := s2;
    }
    var s3 := s1.(objects := s1.objects + {job.key},
                  paths := Upsert(s1.paths, job.id, job.tier, job.refs, job.key, 0), jobs := s1.jobs - {j},
                  abandoned := s1.abandoned - {job.key});
    run := Extend(run, Record(j, 0), s3);
  }

  /** From between two keys, the sweep can erase a key that is still to do, whatever rows name it by now. */
  lemma SweepReaches(s: State, id: RowId, key: Key) returns (run: seq<State>)
    requires s.phase.Sweeping? && s.phase.cur.None? && key in s.phase.todo && LiveAt(s, id, key)
    ensures Run(run) && run[0] == s
    ensures var t := run[|run| - 1]; LiveAt(t, id, key) && key !in t.bytes
  {
    var s1 := s.(paths := Tombstone(s.paths, key), phase := s.phase.(cur := Some(Current(key, false))));
    var s2 := s1.(bytes := s1.bytes - {key}, abandoned := s1.abandoned - {key}, phase := s1.phase.(cur := Some(Current(key, true))));
    run := Extend([s], TombstoneKey(key), s1);
    run := Extend(run, EraseSucceeds, s2);
  }

  /** Whatever the sweep is in the middle of, it can go on to erase `key`. */
  lemma SweepGoesOn(s: State, id: RowId, key: Key) returns (run: seq<State>)
    requires s.phase.Sweeping? && key in s.phase.todo && LiveAt(s, id, key)
    requires s.phase.cur.Some? && s.phase.cur.value.key == key ==> !s.phase.cur.value.erased
    ensures Run(run) && run[0] == s
    ensures var t := run[|run| - 1]; LiveAt(t, id, key) && key !in t.bytes
  {
    if s.phase.cur.None? {
      run := SweepReaches(s, id, key);
    } else {
      var k := s.phase.cur.value.key;
      var s1 := s;
      run := [s];
      if !s.phase.cur.value.erased {
        s1 := s.(bytes := s.bytes - {k}, abandoned := s.abandoned - {k}, phase := s.phase.(cur := Some(Current(k, true))));
        run := Extend(run, EraseSucceeds, s1);
      }
      if k != key {
        var s2 := s1.(paths := Forget(s1.paths, k), objects := s1.objects - {k}, phase := Sweeping(s1.phase.todo - {k}, None));
        run := Extend(run, DropObject, s2);
        var more := SweepReaches(s2, id, key);
        run := Join(run, more);
      }
    }
  }

  lemma {:induction false} Join(a: seq<State>, b: seq<State>) returns (run: seq<State>)
    requires Run(a) && Run(b) && a[|a| - 1] == b[0]
    ensures Run(run) && run[0] == a[0] && run[|run| - 1] == b[|b| - 1]
    decreases |b|
  {
    if |b| == 1 {
      run := a;
    } else {
      assert Step(b[0], b[0 + 1]);
      var e :| Next(b[0], e, b[1]);
      var longer := Extend(a, e, b[1]);
      forall i | 0 <= i < |b[1..]| - 1
        ensures Step(b[1..][i], b[1..][i + 1])
      {
        assert Step(b[i + 1], b[i + 1 + 1]);
      }
      run := Join(longer, b[1..]);
    }
  }

  /** The row at `id` is live and its bytes are gone, or its key was taken away. */
  predicate Bereft(s: State, id: RowId) {
    && id in s.paths && s.paths[id].state == Live
    && (s.paths[id].objectKey.None? || s.paths[id].objectKey.value !in s.bytes)
  }

  /** A live row recorded while its key is still to be swept does not survive the sweep whole. */
  lemma SweepUndoes(s: State, id: RowId, key: Key) returns (run: seq<State>)
    requires key in Todo(s) && LiveAt(s, id, key)
    ensures Run(run) && run[0] == s && Bereft(run[|run| - 1], id)
  {
    var cur := s.phase.cur;
    if cur.Some? && cur.value == Current(key, true) {
      var t := s.(paths := Forget(s.paths, key), objects := s.objects - {key}, phase := Sweeping(s.phase.todo - {key}, None));
      run := Extend([s], DropObject, t);
    } else {
      run := SweepGoesOn(s, id, key);
    }
  }

  /** The proviso of `KeyIsSafe` is exact: whenever it fails, for a write at any stage, some continuation ends with that
      write's row live and without bytes. */
  lemma NotClearIsUnsafe(s: State, k: Key) returns (id: RowId, run: seq<State>)
    requires !ClearFor(s, k)
    ensures Run(run) && run[0] == s && Bereft(run[|run| - 1], id)
    ensures exists j :: j in s.jobs && s.jobs[j].id == id && s.jobs[j].key == k
  {
    hide Run;
    var j :| j in s.jobs && s.jobs[j].key == k && InTheWay(s, k, s.jobs[j].stage);
    id := s.jobs[j].id;
    run := FinishWrite(s, j);
    if k in Todo(s) {
      var more := SweepUndoes(run[|run| - 1], id, k);
      run := Join(run, more);
    }
  }

  /** A push that begins while the collector is in its way can end with its row live and without bytes. */
  lemma InTheWayIsUnsafe(s: State, id: RowId, tier: Tier, key: Key, j: nat) returns (run: seq<State>)
    requires j !in s.jobs && InTheWay(s, key, FirstStage(tier))
    ensures Run(run) && run[0] == s && Bereft(run[|run| - 1], id)
  {
    var job := Job(id, tier, [], key, FirstStage(tier));
    var s1 := s.(jobs := s.jobs[j := job]);
    run := Extend([s], Begin(j, job), s1);
    hide Run, Next;
    var more := FinishWrite(s1, j);
    run := Join(run, more);
    if key in Todo(s) {
      var end := SweepUndoes(run[|run| - 1], id, key);
      run := Join(run, end);
    }
  }

  // ----- an undisturbed pass -----

  function Tables(s: State): Db {
    Db(s.paths, s.objects, s.bytes)
  }

  /** The state with these tables, the keys in `erased` no longer abandoned. */
  function WithTables(s: State, db: Db, erased: set<Key>): State {
    s.(paths := db.paths, objects := db.objects, bytes := db.bytes, abandoned := s.abandoned - erased)
  }

  /** The keys whose bytes a sweep over `keys` removes. */
  function ErasedOf(keys: set<Key>, outcome: Key -> Deletion): set<Key> {
    Gone(keys, outcome) + Lost(keys, outcome)
  }

  /** One turn of the sweep loop is a run of statements. */
  lemma KeyIsARun(s: State, key: Key, o: Deletion) returns (run: seq<State>)
    requires s.phase.Sweeping? && s.phase.cur.None? && key in s.phase.todo
    ensures Run(run) && run[0] == s
    ensures run[|run| - 1] == WithTables(s, SweptKey(Tables(s), key, o), if o == FailedKept then {} else {key}).(phase := Sweeping(s.phase.todo - {key}, None))
  {
    var s1 := s.(paths := Tombstone(s.paths, key), phase := s.phase.(cur := Some(Current(key, false))));
    run := Extend([s], TombstoneKey(key), s1);
    if o == Deleted {
      var s2 := s1.(bytes := s1.bytes - {key}, abandoned := s1.abandoned - {key}, phase := s1.phase.(cur := Some(Current(key, true))));
      var s3 := s2.(paths := Forget(s2.paths, key), objects := s2.objects - {key}, phase := Sweeping(s2.phase.todo - {key}, None));
      run := Extend(run, EraseSucceeds, s2);
      run := Extend(run, DropObject, s3);
    } else {
      var lost := o == FailedLost;
      var s2 := s1.(bytes := if lost then s1.bytes - {key} else s1.bytes,
                    abandoned := if lost then s1.abandoned - {key} else s1.abandoned, phase := Sweeping(s1.phase.todo - {key}, None));
      run := Extend(run, EraseFails(lost), s2);
    }
  }

  /** The loop over the keys still to do, from `visited` to all of them. */
  lemma {:induction false} LoopIsARun(db: Db, s: State, visited: set<Key>, outcome: Key -> Deletion) returns (run: seq<State>)
    requires s.phase.Sweeping? && s.phase.cur.None? && s.phase.todo !! visited
    requires Tables(s) == SweptOver(db, visited, outcome)
    ensures Run(run) && run[0] == s
    ensures run[|run| - 1] == WithTables(s, SweptOver(db, visited + s.phase.todo, outcome), ErasedOf(s.phase.todo, outcome)).(phase := Sweeping({}, None))
    decreases s.phase.todo
  {
    hide SweptOver, SweptKey, Run;
    if s.phase.todo == {} {
      OneState(s);
      run := [s];
      assert visited + s.phase.todo == visited;
      assert ErasedOf({}, outcome) == {};
    } else {
      var key :| key in s.phase.todo;
      SweptKeyStep(db, visited, outcome, key);
      var first := KeyIsARun(s, key, outcome(key));
      var t := first[|first| - 1];
      var rest := LoopIsARun(db, t, visited + {key}, outcome);
      assert visited + {key} + t.phase.todo == visited + s.phase.todo;
      EraseOne(s.phase.todo, outcome, key);
      run := Join(first, rest);
    }
  }

  lemma EraseOne(keys: set<Key>, outcome: Key -> Deletion, key: Key)
    requires key in keys
    ensures ErasedOf(keys, outcome) == ErasedOf(keys - {key}, outcome) + if outcome(key) == FailedKept then {} else {key}
    ensures ErasedOf({}, outcome) == {}
  {
  }

  lemma OneState(s: State)
    ensures Run([s])
  {
  }

  /** A pass no writer disturbs is a run of the machine, and ends with the tables `SweepAndReap` computes. */
  lemma PassIsARun(s: State, outcome: Key -> Deletion) returns (run: seq<State>)
    requires s.phase.Resting?
    ensures Run(run) && run[0] == s
    ensures run[|run| - 1] == WithTables(s, Collected(Tables(s), outcome), ErasedOf(Candidates(s.paths, s.objects), outcome))
  {
    hide Run, Candidates, SweptOver, Reap;
    var db := Tables(s);
    var s1 := s.(phase := Sweeping(Candidates(s.paths, s.objects), None));
    OneState(s);
    var first := Extend([s], Scan, s1);
    NothingSwept(db, outcome);
    var loop := LoopIsARun(db, s1, {}, outcome);
    assert {} + s1.phase.todo == Candidates(s.paths, s.objects);
    run := Join(first, loop);
    var t := run[|run| - 1];
    run := Extend(run, ReapRows, t.(paths := Reap(t.paths, t.objects), phase := Resting));
  }

  /** From whatever state crashes left, one undisturbed pass whose deletes all succeed settles everything: an
      `objects` row for a key exactly when a live row names it, and every other row naming such a key. */
  lemma OnePassSettles(s: State, outcome: Key -> Deletion)
    requires Inv(s) && forall k :: k in Candidates(s.paths, s.objects) ==> outcome(k) == Deleted
    ensures var a := Collected(Tables(s), outcome);
      && (forall k :: k in a.objects <==> HasLiveReferrer(a.paths, k))
      && (forall id :: id in a.paths && a.paths[id].state != Live ==>
            a.paths[id].objectKey.Some? && HasLiveReferrer(a.paths, a.paths[id].objectKey.value))
  {
    CompletePass(Tables(s), outcome);
  }

  /** Over a run: from a state sound for `k`, a marked row of that key whose access is claimed before the scan is live
      after the drain, and with its bytes after the whole pass that follows. */
  lemma AccessedRowIsRunSafe(s: State, claimed: seq<Access>, rest: seq<Access>, a: Access, k: Key, marked: Paths, c: Cutoffs, now: Time,
                             outcome: Key -> Deletion) returns (run: seq<State>)
    requires s.phase.Resting? && Shape(s) && InvFor(s, k) && multiset(claimed) + multiset(rest) == multiset(s.queue)
    requires a in claimed && a.id in s.paths && s.paths[a.id].state == Marked && Names(s.paths[a.id], k)
    requires CutoffOf(c, s.paths[a.id].tier).Some? ==> a.at >= now - CutoffOf(c, s.paths[a.id].tier).value
    requires IsMarked(Drain(s.paths, claimed), marked, c, now)
    ensures Run(run) && |run| > 2 && run[0] == s && run[1].paths == Drain(s.paths, claimed) && LiveAt(run[1], a.id, k)
    ensures LiveAt(run[|run| - 1], a.id, k) && k in run[|run| - 1].bytes && run[|run| - 1].phase.Resting?
  {
    hide Collected, Drain, Fresh, IsMarked;
    var s1 := s.(paths := Drain(s.paths, claimed), queue := rest);
    var s2 := s1.(paths := marked);
    DrainEffects(s.paths, claimed, a.id);
    AccessedPathSurvives(Tables(s), claimed, a, marked, c, now, outcome);
    assert Next(s, DrainQueue(claimed, rest), s1) && Next(s1, Mark(c, now), s2);
    var pass := PassIsARun(s2, outcome);
    hide Next;
    assert Step(s, s1) && Step(s1, s2);
    run := [s, s1] + pass;
    forall i | 0 <= i < |run| - 1
      ensures Step(run[i], run[i + 1])
    {
      if i >= 2 {
        assert Step(pass[i - 2], pass[i - 2 + 1]);
      }
    }
  }
}
