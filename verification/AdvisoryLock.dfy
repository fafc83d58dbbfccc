/** The advisory-lock guard over a connection pool (`crates/server/src/advisory_lock.rs`, used by `gc.rs` and
    `rotate.rs`). */
module AdvisoryLocks {
  type Key = int

  /** Where a connection is: in the pool, lent out, or dropped with the close mark and not yet gone. */
  datatype Phase = Idle | Busy | Closing

  /** `alive`: the server still has the session. `closeOnDrop`: the mark set by `close_on_drop`. */
  datatype Conn = Conn(phase: Phase, alive: bool, closeOnDrop: bool)

  /** A session may take a lock again and has to give it back as often. */
  datatype Lock = Lock(conn: nat, count: nat)

  datatype Guard = Guard(conn: nat, key: Key, released: bool)

  datatype State = State(conns: map<nat, Conn>, locks: map<Key, Lock>, guards: map<nat, Guard>)

  // ----- the server -----

  predicate Grants(locks: map<Key, Lock>, conn: nat, key: Key) {
    key !in locks || locks[key].conn == conn
  }

  /** `pg_try_advisory_lock`. */
  function TryLock(locks: map<Key, Lock>, conn: nat, key: Key): map<Key, Lock> {
    if key !in locks then locks[key := Lock(conn, 1)]
    else if locks[key].conn == conn then locks[key := Lock(conn, locks[key].count + 1)]
    else locks
  }

  /** `pg_advisory_unlock`. */
  function Unlock(locks: map<Key, Lock>, conn: nat, key: Key): map<Key, Lock> {
    if key !in locks || locks[key].conn != conn then locks
    else if locks[key].count <= 1 then locks - {key}
    else locks[key := Lock(conn, locks[key].count - 1)]
  }

  /** A session that ends gives up all its locks. */
  function Without(locks: map<Key, Lock>, conn: nat): map<Key, Lock> {
    map k | k in locks && locks[k].conn != conn :: locks[k]
  }

  /** An unlock undoes a granted lock, also one taken again, and no other session can undo it. */
  lemma UnlockUndoes(locks: map<Key, Lock>, conn: nat, key: Key, other: nat)
    requires Grants(locks, conn, key) && (key in locks ==> locks[key].count >= 1)
    ensures Unlock(TryLock(locks, conn, key), conn, key) == locks
    ensures other != conn ==> Unlock(TryLock(locks, conn, key), other, key) == TryLock(locks, conn, key)
    ensures other != conn ==> !Grants(TryLock(locks, conn, key), other, key)
  {
  }

  // ----- steps -----

  /** How a statement ended. A statement that failed on the client may have taken effect on the server. */
  datatype Outcome = Done | Failed(took: bool)

  datatype Event =
    | Open(conn: nat)
    | Borrow(conn: nat)
    | Return(conn: nat)
    | Acquire(conn: nat, key: Key, guard: nat)
    | Refuse(conn: nat, key: Key)
    | AcquireFails(conn: nat, key: Key, took: bool)
    | UnlockStmt(guard: nat, outcome: Outcome)
    | UnlockAbandoned(guard: nat, took: bool)
    | DropGuard(guard: nat)
    | SessionEnds(conn: nat)

  predicate Guarded(s: State, conn: nat) {
    exists g :: g in s.guards && s.guards[g].conn == conn
  }

  predicate Usable(s: State, conn: nat) {
    conn in s.conns && s.conns[conn].phase == Busy && s.conns[conn].alive
  }

  /** A lent connection handed back: closed if marked, pooled otherwise. */
  function GiveBack(c: Conn): Conn {
    c.(phase := if c.closeOnDrop then Closing else Idle)
  }

  /** `if result.is_err() { close_on_drop }`. */
  function AfterUnlock(c: Conn, outcome: Outcome): Conn {
    c.(closeOnDrop := c.closeOnDrop || outcome.Failed?)
  }

  /** `if !self.released { close_on_drop }`, then the connection is dropped. */
  function AfterDrop(c: Conn, released: bool): Conn {
    GiveBack(c.(closeOnDrop := c.closeOnDrop || !released))
  }

  function UnlockedBy(s: State, g: nat, effect: bool): map<Key, Lock>
    requires g in s.guards
  {
    if effect then Unlock(s.locks, s.guards[g].conn, s.guards[g].key) else s.locks
  }

  ghost predicate Next(s: State, e: Event, t: State) {
    match e
    case Open(c) => c !in s.conns && t == s.(conns := s.conns[c := Conn(Idle, true, false)])
    case Borrow(c) => c in s.conns && s.conns[c].phase == Idle && t == s.(conns := s.conns[c := s.conns[c].(phase := Busy)])
    case Return(c) =>
      && c in s.conns && s.conns[c].phase == Busy && !Guarded(s, c)
      && t == s.(conns := s.conns[c := GiveBack(s.conns[c])])
    case Acquire(c, key, g) =>
      && Usable(s, c) && !Guarded(s, c) && Grants(s.locks, c, key) && g !in s.guards
      && t == s.(locks := TryLock(s.locks, c, key), guards := s.guards[g := Guard(c, key, false)])
    case Refuse(c, key) =>
      && Usable(s, c) && !Guarded(s, c) && !Grants(s.locks, c, key)
      && t == s.(conns := s.conns[c := GiveBack(s.conns[c])])
    case AcquireFails(c, key, took) =>
      && c in s.conns && s.conns[c].phase == Busy && !Guarded(s, c)
      && (took ==> s.conns[c].alive && Grants(s.locks, c, key))
      && t == s.(conns := s.conns[c := GiveBack(s.conns[c])], locks := if took then TryLock(s.locks, c, key) else s.locks)
    case UnlockStmt(g, outcome) =>
      && g in s.guards && !s.guards[g].released && s.guards[g].conn in s.conns
      && (outcome == Done ==> s.conns[s.guards[g].conn].alive)
      && t == State(
        s.conns[s.guards[g].conn := AfterUnlock(s.conns[s.guards[g].conn], outcome)],
        UnlockedBy(s, g, outcome == Done || outcome.took),
        s.guards[g := s.guards[g].(released := true)])
    case UnlockAbandoned(g, took) =>
      && g in s.guards && !s.guards[g].released
      && t == s.(locks := UnlockedBy(s, g, took))
    case DropGuard(g) =>
      && g in s.guards && s.guards[g].conn in s.conns
      && t == s.(conns := s.conns[s.guards[g].conn := AfterDrop(s.conns[s.guards[g].conn], s.guards[g].released)],
                 guards := s.guards - {g})
    case SessionEnds(c) =>
      && c in s.conns && s.conns[c].alive
      && t == s.(conns := s.conns[c := s.conns[c].(alive := false)], locks := Without(s.locks, c))
  }

  ghost predicate Run(states: seq<State>, events: seq<Event>) {
    && |states| == |events| + 1
    && forall i :: 0 <= i < |events| ==> Next(states[i], events[i], states[i + 1])
  }

  // ----- the invariant -----

  /** A guard owns a lent connection, and no two share one. */
  ghost predicate GuardsOwn(s: State) {
    && (forall g :: g in s.guards ==> s.guards[g].conn in s.conns && s.conns[s.guards[g].conn].phase == Busy)
    && (forall g, h :: g in s.guards && h in s.guards && s.guards[g].conn == s.guards[h].conn ==> g == h)
  }

  /** Only a live session holds locks. */
  ghost predicate HoldersLive(s: State) {
    forall k :: k in s.locks ==> s.locks[k].conn in s.conns && s.conns[s.locks[k].conn].alive && s.locks[k].count >= 1
  }

  /** Only a guard's connection carries the close mark before it is dropped. */
  ghost predicate MarksGuarded(s: State) {
    forall c :: c in s.conns && s.conns[c].closeOnDrop && s.conns[c].phase != Closing ==> Guarded(s, c)
  }

  ghost predicate Inv(s: State) {
    GuardsOwn(s) && HoldersLive(s) && MarksGuarded(s)
  }

  lemma NextKeepsOwners(s: State, e: Event, t: State)
    requires GuardsOwn(s) && Next(s, e, t)
    ensures GuardsOwn(t)
  {
    hide TryLock, Unlock, Without, Grants;
  }

  lemma NextKeepsHolders(s: State, e: Event, t: State)
    requires GuardsOwn(s) && HoldersLive(s) && Next(s, e, t)
    ensures HoldersLive(t)
  {
  }

  lemma NextKeepsMarks(s: State, e: Event, t: State)
    requires GuardsOwn(s) && MarksGuarded(s) && Next(s, e, t)
    ensures MarksGuarded(t)
  {
    hide TryLock, Unlock, Without, Grants;
    forall c | c in t.conns && t.conns[c].closeOnDrop && t.conns[c].phase != Closing
      ensures Guarded(t, c)
    {
      assert Guarded(s, c);
      var g :| g in s.guards && s.guards[g].conn == c;
      assert g in t.guards && t.guards[g].conn == c;
    }
  }

  lemma NextKeepsInv(s: State, e: Event, t: State)
    requires Inv(s) && Next(s, e, t)
    ensures Inv(t)
  {
    hide Next, GuardsOwn, HoldersLive, MarksGuarded;
    NextKeepsOwners(s, e, t);
    NextKeepsMarks(s, e, t);
    NextKeepsHolders(s, e, t);
  }

  lemma {:induction false} RunKeepsInv(states: seq<State>, events: seq<Event>, n: nat)
    requires Run(states, events) && Inv(states[0]) && n < |states|
    ensures Inv(states[n])
  {
    hide Next, Inv;
    if n > 0 {
      RunKeepsInv(states, events, n - 1);
      assert Next(states[n - 1], events[n - 1], states[n - 1 + 1]);
      NextKeepsInv(states[n - 1], events[n - 1], states[n]);
    }
  }

  // ----- mutual exclusion -----

  /** The guard's session holds the lock it was granted. */
  ghost predicate Working(s: State, g: nat, conn: nat, key: Key) {
    && g in s.guards && s.guards[g] == Guard(conn, key, false)
    && key in s.locks && s.locks[key].conn == conn
  }

  /** The step that ends the pass under `g`: an unlock of any outcome, the drop of the guard, or the loss of its session. */
  predicate EndsPass(e: Event, g: nat, conn: nat) {
    match e
    case UnlockStmt(h, _) => h == g
    case UnlockAbandoned(h, _) => h == g
    case DropGuard(h) => h == g
    case SessionEnds(c) => c == conn
    case _ => false
  }

  lemma WorkingStays(s: State, e: Event, t: State, g: nat, conn: nat, key: Key)
    requires Inv(s) && Next(s, e, t) && Working(s, g, conn, key) && !EndsPass(e, g, conn)
    ensures Working(t, g, conn, key)
  {
  }

  lemma {:induction false} WorkingUntil(states: seq<State>, events: seq<Event>, i: nat, n: nat, g: nat, conn: nat, key: Key)
    requires Run(states, events) && Inv(states[0]) && i < n < |states| && events[i] == Acquire(conn, key, g)
    requires forall m :: i < m < n ==> !EndsPass(events[m], g, conn)
    ensures Working(states[n], g, conn, key)
    decreases n
  {
    hide Inv, EndsPass;
    if n == i + 1 {
      assert Next(states[i], events[i], states[i + 1]);
    } else {
      WorkingUntil(states, events, i, n - 1, g, conn, key);
      RunKeepsInv(states, events, n - 1);
      assert Next(states[n - 1], events[n - 1], states[n - 1 + 1]);
      assert !EndsPass(events[n - 1], g, conn);
      WorkingStays(states[n - 1], events[n - 1], states[n], g, conn, key);
    }
  }

  /** Passes under one key never overlap: in every run, with failures, abandoned statements, leaked locks and lost
      sessions, two grants of one key are separated by the end of the first one's pass. */
  lemma PassesNeverOverlap(states: seq<State>, events: seq<Event>, i: nat, j: nat, c1: nat, c2: nat, key: Key, g1: nat, g2: nat)
    requires Run(states, events) && Inv(states[0]) && i < j < |events|
    requires events[i] == Acquire(c1, key, g1) && events[j] == Acquire(c2, key, g2)
    ensures exists m :: i < m < j && EndsPass(events[m], g1, c1)
  {
    assert Next(states[j], events[j], states[j + 1]);
    assert !Guarded(states[j], c2) && Grants(states[j].locks, c2, key);
    if forall m :: i < m < j ==> !EndsPass(events[m], g1, c1) {
      WorkingUntil(states, events, i, j, g1, c1, key);
      assert false;
    }
  }

  // ----- the pool stays clean -----

  ghost predicate Covers(s: State, g: nat, k: Key)
    requires k in s.locks && s.locks[k].conn in s.conns
  {
    && g in s.guards && s.guards[g].conn == s.locks[k].conn && s.guards[g].key == k
    && (s.guards[g].released ==> s.conns[s.locks[k].conn].closeOnDrop)
  }

  /** The holder of a lock is on its way out, or lent to the guard of that lock, which will close it if it does not
      unlock it. */
  ghost predicate Accounted(s: State, k: Key)
    requires k in s.locks
  {
    && s.locks[k].conn in s.conns && s.locks[k].count == 1
    && (s.conns[s.locks[k].conn].phase == Closing || exists g :: Covers(s, g, k))
  }

  ghost predicate CleanFor(s: State, k: Key) {
    Inv(s) && (k in s.locks ==> Accounted(s, k))
  }

  /** An acquiring statement that took the lock `k` and then failed on the client: its connection goes back unmarked. */
  predicate Leaks(e: Event, k: Key) {
    e.AcquireFails? && e.took && e.key == k
  }

  /** No connection in the pool holds the lock `k`. */
  ghost predicate PoolIsFree(s: State, k: Key) {
    k in s.locks && s.locks[k].conn in s.conns ==> s.conns[s.locks[k].conn].phase != Idle
  }

  lemma CoverStays(s: State, e: Event, t: State, g: nat, k: Key)
    requires CleanFor(s, k) && Next(s, e, t) && !Leaks(e, k) && k in s.locks && Covers(s, g, k) && k in t.locks
    requires !(e.Acquire? && k == e.key)
    ensures Accounted(t, k)
  {
    if e == DropGuard(g) {
      assert t.conns[t.locks[k].conn].phase == Closing;
    } else {
      assert Covers(t, g, k);
    }
  }

  lemma NextKeepsClean(s: State, e: Event, t: State, k: Key)
    requires CleanFor(s, k) && Next(s, e, t) && !Leaks(e, k)
    ensures CleanFor(t, k)
  {
    NextKeepsInv(s, e, t);
    if k in t.locks {
      if e.Acquire? && k == e.key {
        assert Covers(t, e.guard, k);
      } else if s.conns[s.locks[k].conn].phase != Closing {
        var g :| Covers(s, g, k);
        CoverStays(s, e, t, g, k);
      }
    }
  }

  /** Key by key: no idle connection holds the advisory lock `k`, in every run in which no failing acquisition took that
      one, whatever leaks of others. */
  lemma {:induction false} PoolStaysFree(states: seq<State>, events: seq<Event>, k: Key, n: nat)
    requires Run(states, events) && CleanFor(states[0], k) && n < |states|
    requires forall i :: 0 <= i < n ==> !Leaks(events[i], k)
    ensures CleanFor(states[n], k) && PoolIsFree(states[n], k)
  {
    hide Next, Inv, Leaks;
    if n > 0 {
      PoolStaysFree(states, events, k, n - 1);
      assert Next(states[n - 1], events[n - 1], states[n - 1 + 1]);
      assert !Leaks(events[n - 1], k);
      NextKeepsClean(states[n - 1], events[n - 1], states[n], k);
    }
    FreeIfClean(states[n], k);
  }

  /** The proviso is exact: a step from a state clean for `k` leaves the pool free of it if and only if it does not leak it. */
  lemma LeakExactly(s: State, e: Event, t: State, k: Key)
    requires CleanFor(s, k) && Next(s, e, t)
    ensures PoolIsFree(t, k) <==> !Leaks(e, k)
    ensures CleanFor(t, k) <==> !Leaks(e, k)
  {
    if Leaks(e, k) {
      assert k in t.locks && t.locks[k].conn == e.conn && t.conns[e.conn].phase == Idle;
    } else {
      NextKeepsClean(s, e, t, k);
    }
  }

  /** From a state clean for its key a successful release frees that for everyone. */
  lemma ReleaseFrees(s: State, g: nat, t: State)
    requires Next(s, UnlockStmt(g, Done), t) && CleanFor(s, s.guards[g].key)
    ensures s.guards[g].key !in t.locks || t.locks[s.guards[g].key].conn != s.guards[g].conn
    ensures s.guards[g].key in s.locks && s.locks[s.guards[g].key].conn == s.guards[g].conn ==>
      forall c :: Grants(t.locks, c, s.guards[g].key)
  {
  }

  // ----- the methods -----

  datatype Acquisition = Granted | Held | Errored(took: bool)

  /** `t` is clean for every key that `s` is, but for those in `leaked`. */
  ghost predicate StaysClean(s: State, t: State, leaked: set<Key>) {
    forall k :: CleanFor(s, k) && k !in leaked ==> CleanFor(t, k)
  }

  lemma StepStaysClean(s: State, e: Event, t: State, leaked: set<Key>)
    requires Next(s, e, t) && forall k :: Leaks(e, k) ==> k in leaked
    ensures StaysClean(s, t, leaked)
  {
    forall k | CleanFor(s, k) && k !in leaked
      ensures CleanFor(t, k)
    {
      NextKeepsClean(s, e, t, k);
    }
  }

  /** The server, the pool and the guards in use. */
  class LockPool {
    var s: State

    constructor ()
      ensures s == State(map[], map[], map[]) && forall k :: CleanFor(s, k)
    {
      s := State(map[], map[], map[]);
    }

    /** `AdvisoryLock::try_acquire` on an idle connection. The statement fails on a session that is gone, and may fail
        otherwise, before or after it took effect; then the connection goes back as it is. */
    method TryAcquire(conn: nat, key: Key, guard: nat, outcome: Outcome) returns (r: Acquisition, ghost mid: State)
      requires CleanFor(s, key) && conn in s.conns && s.conns[conn].phase == Idle && guard !in s.guards
      modifies this
      ensures Next(old(s), Borrow(conn), mid)
      ensures r == Granted ==> Next(mid, Acquire(conn, key, guard), s) && Working(s, guard, conn, key)
      ensures r == Held ==> Next(mid, Refuse(conn, key), s)
      ensures r.Errored? ==> Next(mid, AcquireFails(conn, key, r.took), s)
      ensures r.Errored? <==> !old(s).conns[conn].alive || outcome.Failed?
      ensures r.Errored? ==> (r.took <==> old(s).conns[conn].alive && outcome.took && key !in old(s).locks)
      ensures !r.Errored? ==> (r == Granted <==> key !in old(s).locks)
      ensures Inv(s) && (CleanFor(s, key) <==> r != Errored(true))
      ensures StaysClean(old(s), s, if r == Errored(true) then {key} else {})
    {
      hide Accounted;
      ghost var before := s;
      assert PoolIsFree(s, key) by { FreeIfClean(s, key); }
      s := s.(conns := s.conns[conn := s.conns[conn].(phase := Busy)]);
      mid := s;
      NextKeepsClean(before, Borrow(conn), mid, key);
      StepStaysClean(before, Borrow(conn), mid, {});
      var alive, grants := s.conns[conn].alive, Grants(s.locks, conn, key);
      ghost var e;
      if !alive || outcome.Failed? {
        var took := alive && outcome.took && grants;
        r, e := Errored(took), AcquireFails(conn, key, took);
        s := s.(conns := s.conns[conn := GiveBack(s.conns[conn])], locks := if took then TryLock(s.locks, conn, key) else s.locks);
      } else if grants {
        r, e := Granted, Acquire(conn, key, guard);
        s := s.(locks := TryLock(s.locks, conn, key), guards := s.guards[guard := Guard(conn, key, false)]);
      } else {
        r, e := Held, Refuse(conn, key);
        s := s.(conns := s.conns[conn := GiveBack(s.conns[conn])]);
      }
      assert Next(mid, e, s);
      hide Next;
      NextKeepsInv(mid, e, s);
      LeakExactly(mid, e, s, key);
      StepStaysClean(mid, e, s, if r == Errored(true) then {key} else {});
    }

    /** `AdvisoryLock::release`: the unlock, then the drop of the guard it consumed. */
    method Release(guard: nat, outcome: Outcome) returns (ghost mid: State)
      requires Inv(s) && guard in s.guards && !s.guards[guard].released
      requires outcome == Done ==> s.conns[s.guards[guard].conn].alive
      modifies this
      ensures Next(old(s), UnlockStmt(guard, outcome), mid) && Next(mid, DropGuard(guard), s)
      ensures Inv(s) && StaysClean(old(s), s, {}) && guard !in s.guards
      ensures outcome.Failed? ==> s.conns[old(s).guards[guard].conn].phase == Closing
    {
      ghost var before := s;
      var conn := s.guards[guard].conn;
      s := State(
        s.conns[conn := AfterUnlock(s.conns[conn], outcome)],
        UnlockedBy(s, guard, outcome == Done || outcome.took),
        s.guards[guard := s.guards[guard].(released := true)]);
      mid := s;
      NextKeepsInv(before, UnlockStmt(guard, outcome), mid);
      StepStaysClean(before, UnlockStmt(guard, outcome), mid, {});
      hide CleanFor;
      Drop(guard);
    }

    /** `Drop for AdvisoryLock`. */
    method Drop(guard: nat)
      requires Inv(s) && guard in s.guards
      modifies this
      ensures Next(old(s), DropGuard(guard), s) && Inv(s) && StaysClean(old(s), s, {})
      ensures !old(s).guards[guard].released ==> s.conns[old(s).guards[guard].conn].phase == Closing
      ensures old(s).guards[guard].released && old(s).conns[old(s).guards[guard].conn].closeOnDrop ==>
        s.conns[old(s).guards[guard].conn].phase == Closing
    {
      ghost var before := s;
      var g := s.guards[guard];
      s := s.(conns := s.conns[g.conn := AfterDrop(s.conns[g.conn], g.released)], guards := s.guards - {guard});
      NextKeepsInv(before, DropGuard(guard), s);
      StepStaysClean(before, DropGuard(guard), s, {});
    }
  }

  lemma FreeIfClean(s: State, k: Key)
    requires CleanFor(s, k)
    ensures PoolIsFree(s, k)
  {
  }
}
