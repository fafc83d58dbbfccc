/** One collector pass: drain, mark, sweep and reap (`crates/server/src/gc.rs`), as methods that update the
    tables and the object store in place, and what a whole sweep leaves behind. */
module GcPass {
  import opened Numerals
  import opened GcTables
  import opened GcMark

  /** How one `delete_object` call went. A failed call may still have removed the bytes. */
  datatype Deletion = Deleted | FailedKept | FailedLost

  /** What the collector works on. */
  datatype Db = Db(paths: Paths, objects: set<Key>, bytes: set<Key>)

  // ----- the sweep as a whole -----

  /** A row once the keys in `visited` have been processed, those in `deleted` down to their `objects` row. */
  function SweptRow(row: Row, visited: set<Key>, deleted: set<Key>): Row {
    if row.objectKey.None? then row
    else
      var k := row.objectKey.value;
      row.(state := if k in visited && row.state == Marked then Purging else row.state,
           objectKey := if k in deleted then None else row.objectKey)
  }

  function SweptRows(paths: Paths, visited: set<Key>, deleted: set<Key>): Paths {
    map id | id in paths :: SweptRow(paths[id], visited, deleted)
  }

  /** The sweep after the keys in `visited`, whatever the outcome of each deletion. */
  function SweptOver(db: Db, visited: set<Key>, outcome: Key -> Deletion): Db {
    var gone := Gone(visited, outcome);
    Db(SweptRows(db.paths, visited, gone), db.objects - gone, db.bytes - gone - Lost(visited, outcome))
  }

  /** A whole sweep over the candidates of `db`, before the reap. */
  function Swept(db: Db, outcome: Key -> Deletion): Db {
    SweptOver(db, Candidates(db.paths, db.objects), outcome)
  }

  /** The keys whose deletion succeeded. */
  function Gone(keys: set<Key>, outcome: Key -> Deletion): set<Key> {
    set k | k in keys && outcome(k) == Deleted
  }

  /** The keys whose deletion failed but took effect. */
  function Lost(keys: set<Key>, outcome: Key -> Deletion): set<Key> {
    set k | k in keys && outcome(k) == FailedLost
  }

  lemma VisitOne(keys: set<Key>, outcome: Key -> Deletion, k: Key)
    requires k !in keys
    ensures Gone(keys + {k}, outcome) == if outcome(k) == Deleted then Gone(keys, outcome) + {k} else Gone(keys, outcome)
    ensures Lost(keys + {k}, outcome) == if outcome(k) == FailedLost then Lost(keys, outcome) + {k} else Lost(keys, outcome)
    ensures Gone(keys, outcome) <= keys && Lost(keys, outcome) <= keys
  {
  }

  /** The sweep and the reap. */
  function Collected(db: Db, outcome: Key -> Deletion): Db {
    var s := Swept(db, outcome);
    s.(paths := Reap(s.paths, s.objects))
  }

  lemma TombstoneStep(paths: Paths, visited: set<Key>, deleted: set<Key>, k: Key)
    requires deleted <= visited && k !in visited
    ensures Tombstone(SweptRows(paths, visited, deleted), k) == SweptRows(paths, visited + {k}, deleted)
  {
  }

  lemma ForgetStep(paths: Paths, visited: set<Key>, deleted: set<Key>, k: Key)
    requires deleted <= visited && k in visited && k !in deleted
    ensures Forget(SweptRows(paths, visited, deleted), k) == SweptRows(paths, visited, deleted + {k})
  {
  }

  lemma NothingSwept(db: Db, outcome: Key -> Deletion)
    ensures Gone({}, outcome) == {} && SweptOver(db, {}, outcome) == db
  {
    assert Lost({}, outcome) == {};
    assert SweptRows(db.paths, {}, {}) == db.paths;
  }

  /** The statements the loop runs for one key. */
  function SweptKey(db: Db, key: Key, o: Deletion): Db {
    var paths := Tombstone(db.paths, key);
    match o
    case Deleted => Db(Forget(paths, key), db.objects - {key}, db.bytes - {key})
    case FailedKept => Db(paths, db.objects, db.bytes)
    case FailedLost => Db(paths, db.objects, db.bytes - {key})
  }

  lemma SweptKeyStep(db: Db, visited: set<Key>, outcome: Key -> Deletion, k: Key)
    requires k !in visited
    ensures SweptKey(SweptOver(db, visited, outcome), k, outcome(k)) == SweptOver(db, visited + {k}, outcome)
    ensures |Gone(visited + {k}, outcome)| == |Gone(visited, outcome)| + if outcome(k) == Deleted then 1 else 0
  {
    hide Tombstone, Forget, SweptRows, Gone, Lost;
    VisitOne(visited, outcome, k);
    TombstoneStep(db.paths, visited, Gone(visited, outcome), k);
    if outcome(k) == Deleted {
      ForgetStep(db.paths, visited + {k}, Gone(visited, outcome), k);
    }
  }

  /** Some live row names the key, after a sweep, exactly when one did before. */
  lemma SweepKeepsReferrers(db: Db, outcome: Key -> Deletion, k: Key)
    ensures HasLiveReferrer(Swept(db, outcome).paths, k) <==> HasLiveReferrer(db.paths, k)
  {
    var s := Swept(db, outcome);
    var cs := Candidates(db.paths, db.objects);
    if HasLiveReferrer(db.paths, k) {
      var id :| id in db.paths && db.paths[id].state == Live && Names(db.paths[id], k);
      assert k !in cs;
      assert s.paths[id] == db.paths[id];
    }
    if HasLiveReferrer(s.paths, k) {
      var id :| id in s.paths && s.paths[id].state == Live && Names(s.paths[id], k);
      assert Names(db.paths[id], k) && db.paths[id].state == Live;
    }
  }

  lemma ReapKeepsReferrers(paths: Paths, objects: set<Key>, k: Key)
    ensures HasLiveReferrer(Reap(paths, objects), k) <==> HasLiveReferrer(paths, k)
  {
    if HasLiveReferrer(paths, k) {
      var id :| id in paths && paths[id].state == Live && Names(paths[id], k);
      assert Reap(paths, objects)[id] == paths[id];
    }
  }

  /** A pass whose deletes all succeed, from any state satisfying the foreign key: an `objects` row remains for a
      key exactly when a live row names it; live rows are as they were; and every other remaining row names such
      a key, or is a marked row that had already lost its key. */
  lemma CompletePass(db: Db, outcome: Key -> Deletion)
    requires ForeignKey(db.paths, db.objects)
    requires forall k :: k in Candidates(db.paths, db.objects) ==> outcome(k) == Deleted
    ensures var a := Collected(db, outcome);
      && (forall k :: k in a.objects <==> HasLiveReferrer(a.paths, k))
      && (forall id :: id in db.paths && db.paths[id].state == Live ==> id in a.paths && a.paths[id] == db.paths[id])
      && (forall id :: id in a.paths && a.paths[id].state != Live ==>
            if a.paths[id].objectKey.Some? then a.paths[id].objectKey.value in a.objects
            else a.paths[id].state == Marked && db.paths[id] == a.paths[id])
  {
    var s, a := Swept(db, outcome), Collected(db, outcome);
    var cs := Candidates(db.paths, db.objects);
    assert forall k :: k in a.objects <==> k in db.objects && k !in cs;
    forall k
      ensures k in a.objects <==> HasLiveReferrer(a.paths, k)
    {
      SweepKeepsReferrers(db, outcome, k);
      ReapKeepsReferrers(s.paths, s.objects, k);
    }
    forall id | id in db.paths && db.paths[id].state == Live
      ensures id in a.paths && a.paths[id] == db.paths[id]
    {
      if db.paths[id].objectKey.Some? {
        assert HasLiveReferrer(db.paths, db.paths[id].objectKey.value);
      }
      assert s.paths[id] == db.paths[id];
    }
  }

  /** The bytes a sweep removes are those of keys no live row names; so no live row loses its bytes. */
  lemma SweepSparesLiveBytes(db: Db, outcome: Key -> Deletion, id: RowId)
    requires id in db.paths && db.paths[id].state == Live && db.paths[id].objectKey.Some?
    requires db.paths[id].objectKey.value in db.bytes
    ensures var a := Collected(db, outcome);
      id in a.paths && a.paths[id] == db.paths[id] && db.paths[id].objectKey.value in a.bytes
  {
    assert HasLiveReferrer(db.paths, db.paths[id].objectKey.value);
  }

  /** Which rows a pass removes, whatever its deletes come to: those purging without an object, and those not live whose
      object no live row names and whose delete succeeds. One whose delete failed stays. */
  lemma ReapedExactly(db: Db, outcome: Key -> Deletion, id: RowId)
    requires id in db.paths
    ensures id !in Collected(db, outcome).paths
       <==> || (db.paths[id].state == Purging && (db.paths[id].objectKey.None? || db.paths[id].objectKey.value !in db.objects))
            || (db.paths[id].objectKey.Some? && var k := db.paths[id].objectKey.value;
                k in db.objects && !HasLiveReferrer(db.paths, k) && outcome(k) == Deleted)
  {
    if db.paths[id].objectKey.Some? && db.paths[id].state == Live {
      assert HasLiveReferrer(db.paths, db.paths[id].objectKey.value);
    }
  }

  /** A path that has been read survives: accessed before the pass claims its accesses, marked or not, it is live when the
      pass is over, with its key and its bytes, unless that access is itself past the cutoff of its tier; whatever the
      pass deletes or fails to. */
  lemma AccessedPathSurvives(db: Db, claimed: seq<Access>, a: Access, marked: Paths, c: Cutoffs, now: Time, outcome: Key -> Deletion)
    requires a in claimed && a.id in db.paths && db.paths[a.id].state != Purging
    requires db.paths[a.id].objectKey.Some? && db.paths[a.id].objectKey.value in db.bytes
    requires CutoffOf(c, db.paths[a.id].tier).Some? ==> a.at >= now - CutoffOf(c, db.paths[a.id].tier).value
    requires IsMarked(Drain(db.paths, claimed), marked, c, now)
    ensures var end := Collected(db.(paths := marked), outcome);
      && a.id in end.paths && end.paths[a.id].state == Live && end.paths[a.id].objectKey == db.paths[a.id].objectKey
      && end.paths[a.id].refs == db.paths[a.id].refs && end.paths[a.id].tier == db.paths[a.id].tier
      && db.paths[a.id].objectKey.value in end.bytes
  {
    hide Collected, Drain, Fresh;
    DrainEffects(db.paths, claimed, a.id);
    var drained := Drain(db.paths, claimed);
    SurvivorsExactly(drained, marked, c, now, a.id);
    SweepSparesLiveBytes(db.(paths := marked), outcome, a.id);
  }

  /** A marked row whose key is already gone is out of every pass's reach: it is never tombstoned and never reaped. */
  lemma KeylessMarkedRowStays(db: Db, outcome: Key -> Deletion, id: RowId)
    requires id in db.paths && db.paths[id].state == Marked && db.paths[id].objectKey == None
    ensures id in Collected(db, outcome).paths && Collected(db, outcome).paths[id] == db.paths[id]
  {
  }

  // ----- the collector -----

  /** `SELECT … ORDER BY at LIMIT batch`, with the claimed accesses removed from the queue. */
  method ClaimOldest(queue: seq<Access>, batch: nat) returns (claimed: seq<Access>, rest: seq<Access>)
    ensures multiset(claimed) + multiset(rest) == multiset(queue)
    ensures |claimed| == if batch <= |queue| then batch else |queue|
    ensures forall a, b :: a in claimed && b in rest ==> a.at <= b.at
  {
    claimed, rest := [], queue;
    while |claimed| < batch && rest != []
      invariant |claimed| <= batch && |claimed| + |rest| == |queue|
      invariant multiset(claimed) + multiset(rest) == multiset(queue)
      invariant forall a, b :: a in claimed && b in rest ==> a.at <= b.at
      decreases |rest|
    {
      var i := OldestIndex(rest);
      assert rest == rest[..i] + [rest[i]] + rest[i + 1..];
      RestInQueue(rest, i);
      claimed, rest := claimed + [rest[i]], rest[..i] + rest[i + 1..];
    }
  }

  class Collector {
    var paths: Paths
    var objects: set<Key>
    var queue: seq<Access>
    var bytes: set<Key>

    constructor ()
      ensures paths == map[] && objects == {} && queue == [] && bytes == {}
    {
      paths, objects, queue, bytes := map[], {}, [], {};
    }

    ghost function View(): Db
      reads this
    {
      Db(paths, objects, bytes)
    }

    /** Claim up to `batch` of the oldest queued accesses and fold them into the rows. */
    method DrainAccessQueue(batch: nat) returns (claimed: seq<Access>, updated: nat)
      modifies this`paths, this`queue
      ensures multiset(claimed) + multiset(queue) == multiset(old(queue))
      ensures |claimed| == if batch <= |old(queue)| then batch else |old(queue)|
      ensures forall a, b :: a in claimed && b in queue ==> a.at <= b.at
      ensures paths == Drain(old(paths), claimed)
      ensures updated == |Updated(old(paths), claimed)|
    {
      claimed, queue := ClaimOldest(queue, batch);
      updated := |Updated(paths, claimed)|;
      paths := Drain(paths, claimed);
    }

    /** Flip the expired, unreachable live rows. */
    method MarkExpired(c: Cutoffs, now: Time) returns (marked: nat)
      modifies this`paths
      ensures IsMarked(old(paths), paths, c, now)
      ensures marked == |set id | id in old(paths) && old(paths)[id].state == Live && paths[id].state == Marked|
    {
      var kept := FreshSet(paths, c, now);
      ghost var before := paths;
      var hit := set id | id in paths && paths[id].state == Live && Expired(paths[id], c, now) && id !in kept;
      paths := MarkAll(paths, kept, c, now);
      assert hit == set id | id in before && before[id].state == Live && paths[id].state == Marked;
      marked := |hit|;
    }

    /** Delete every object no live row names, then reap the rows left without one. */
    method SweepAndReap(outcome: Key -> Deletion) returns (deleted: nat, reaped: nat)
      modifies this`paths, this`objects, this`bytes
      ensures View() == Collected(old(View()), outcome)
      ensures deleted == |old(objects) - objects|
      ensures |paths| + reaped == |old(paths)|
    {
      hide SweptOver, Gone, Candidates, Reap;
      ghost var before := View();
      var candidates := Candidates(paths, objects);
      ghost var visited: set<Key> := {};
      var todo := candidates;
      deleted := 0;
      NothingSwept(before, outcome);
      while todo != {}
        invariant todo <= candidates && visited == candidates - todo
        invariant deleted == |Gone(visited, outcome)|
        invariant View() == SweptOver(before, visited, outcome)
        decreases todo
      {
        var key :| key in todo;
        SweptKeyStep(before, visited, outcome, key);
        var ok := SweepKey(key, outcome(key));
        if ok {
          deleted := deleted + 1;
        }
        todo, visited := todo - {key}, visited + {key};
      }
      assert visited == candidates;
      SweepCounts(before, outcome);
      var rows := |paths|;
      paths := Reap(paths, objects);
      reaped := rows - |paths|;
    }

    /** One turn of the loop: tombstone, delete the bytes, and only then delete the `objects` row. */
    method SweepKey(key: Key, o: Deletion) returns (ok: bool)
      modifies this`paths, this`objects, this`bytes
      ensures View() == SweptKey(old(View()), key, o)
      ensures ok <==> o == Deleted
    {
      paths := Tombstone(paths, key);
      if o != FailedKept {
        bytes := bytes - {key};
      }
      if o != Deleted {
        return false;
      }
      paths, objects := Forget(paths, key), objects - {key};
      ok := true;
    }
  }

  lemma SweepCounts(db: Db, outcome: Key -> Deletion)
    ensures var s := Swept(db, outcome);
      && |s.paths| == |db.paths| && |Reap(s.paths, s.objects)| <= |s.paths|
      && db.objects - s.objects == Gone(Candidates(db.paths, db.objects), outcome)
  {
    var s := Swept(db, outcome);
    assert s.paths.Keys == db.paths.Keys;
    Subset(Reap(s.paths, s.objects).Keys, s.paths.Keys);
  }

  /** The rows a drain updates. */
  function Updated(paths: Paths, claimed: seq<Access>): set<RowId> {
    set id | id in paths && Latest(claimed, id).Some?
  }

  function OldestIndex(queue: seq<Access>): (i: nat)
    requires queue != []
    ensures i < |queue| && forall a :: a in queue ==> queue[i].at <= a.at
  {
    if |queue| == 1 then 0
    else
      var j := OldestIndex(queue[1..]);
      assert queue == [queue[0]] + queue[1..];
      if queue[0].at <= queue[1 + j].at then 0 else 1 + j
  }

  lemma RestInQueue(queue: seq<Access>, i: nat)
    requires i < |queue|
    ensures forall b :: b in queue[..i] + queue[i + 1..] ==> b in queue
  {
  }

  lemma {:induction false} Subset<T>(a: set<T>, b: set<T>)
    requires a <= b
    ensures |a| <= |b|
  {
    if a != {} {
      var x :| x in a;
      Subset(a - {x}, b - {x});
    }
  }
}
