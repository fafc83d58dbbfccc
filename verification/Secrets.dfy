/** Capability-secret rotation under cached reads (`rotate_locked` of `crates/server/src/rotate.rs`, the secret
    cache of `crates/server/src/postgres_store.rs`). Times are seconds on one clock. */
module Secrets {
  import opened Numerals

  type Time = real
  type Secret = seq<byte>

  datatype Row = Row(secret: Secret, retired: Option<Time>)

  type Table = map<nat, Row>

  /** `CAPABILITY_SECRET_CACHE_TTL`. */
  const CACHE_TTL: real := 60.0

  /** The first kid no `BIGSERIAL` column can hold; process-local kids start here. */
  const EPHEMERAL_KID: nat := 0x8000_0000_0000_0000

  /** `retention.as_secs()`: the whole seconds only. */
  function WholeSeconds(retention: real): real {
    retention.Floor as real
  }

  // ----- statements -----

  function RetireRow(row: Row, at: Time): Row {
    if row.retired.None? then row.(retired := Some(at)) else row
  }

  /** The committed transaction: every current row is retired at the transaction's start and `kid` replaces it. */
  function Rotated(rows: Table, kid: nat, secret: Secret, begun: Time): Table {
    (map k | k in rows :: RetireRow(rows[k], begun))[kid := Row(secret, None)]
  }

  predicate Prunable(row: Row, at: Time, retention: real) {
    row.retired.Some? && row.retired.value < at - WholeSeconds(retention)
  }

  function Pruned(rows: Table, at: Time, retention: real): Table {
    map k | k in rows && !Prunable(rows[k], at, retention) :: rows[k]
  }

  /** `ORDER BY kid DESC LIMIT 1`. */
  predicate IsNewest(rows: Table, kid: nat) {
    kid in rows && forall k :: k in rows ==> k <= kid
  }

  // ----- caches and runs -----

  datatype Current = Current(stamp: Time, kid: nat, secret: Secret)

  datatype Cache = Cache(current: Option<Current>, byKid: map<nat, Secret>)

  /** A secret a replica has read or minted and not yet put in its cache. */
  datatype Fetch = Fetch(replica: nat, readAt: Time, kid: nat, secret: Secret)

  datatype State = State(rows: Table, nextKid: nat, now: Time, caches: seq<Cache>, inFlight: set<Fetch>)

  /** `latency` bounds the time from a read to the cache stamp taken after it, `commit` the time from a rotation's
      start, which is what `now()` means inside it, to its commit. */
  datatype Config = Config(retention: real, latency: real, commit: real)

  datatype Event =
    | Rotate(kid: nat, secret: Secret, begun: Time)
    | Prune(at: Time)
    | Read(fetch: Fetch)
    | Mint(fetch: Fetch)
    | MakeEphemeral(fetch: Fetch)
    | Install(fetch: Fetch)
    | Hit(replica: nat)
    | Resolve(replica: nat, kid: nat)
    | Restart(replica: nat)

  function Put(s: State, r: nat, cache: Cache): State
    requires r < |s.caches|
  {
    s.(caches := s.caches[r := cache])
  }

  ghost predicate Begins(s: State, f: Fetch, t: State) {
    f.replica < |s.caches| && f.readAt == t.now && t.inFlight == s.inFlight + {f} && t.caches == s.caches
  }

  /** One step, at a time not before the last. A replica may mint whenever its read fails or finds nothing. */
  ghost predicate Next(c: Config, s: State, e: Event, t: State) {
    && t.now >= s.now && |t.caches| == |s.caches|
    && match e
       case Rotate(kid, secret, begun) =>
         && t.now - c.commit <= begun <= t.now && s.nextKid <= kid < EPHEMERAL_KID
         && t == s.(now := t.now, rows := Rotated(s.rows, kid, secret, begun), nextKid := kid + 1)
       case Prune(at) => at <= t.now && t == s.(now := t.now, rows := Pruned(s.rows, at, c.retention))
       case Read(f) =>
         && Begins(s, f, t) && t.rows == s.rows && t.nextKid == s.nextKid
         && IsNewest(s.rows, f.kid) && f.secret == s.rows[f.kid].secret
       case Mint(f) =>
         && Begins(s, f, t) && s.nextKid <= f.kid < EPHEMERAL_KID && t.nextKid == f.kid + 1
         && t.rows == s.rows[f.kid := Row(f.secret, None)]
       case MakeEphemeral(f) => Begins(s, f, t) && t.rows == s.rows && t.nextKid == s.nextKid && f.kid >= EPHEMERAL_KID
       case Install(f) =>
         && f in s.inFlight && f.replica < |s.caches| && t.now - f.readAt <= c.latency
         && t == Put(s, f.replica, Installed(s.caches[f.replica], t.now, f)).(now := t.now, inFlight := s.inFlight - {f})
       case Hit(r) => r < |s.caches| && Fresh(s.caches[r], t.now) && t == s.(now := t.now)
       case Resolve(r, kid) =>
         && r < |s.caches| && kid in s.rows
         && t == Put(s, r, s.caches[r].(byKid := s.caches[r].byKid[kid := s.rows[kid].secret])).(now := t.now)
       case Restart(r) => r < |s.caches| && t == Put(s, r, Cache(None, map[])).(now := t.now)
  }

  function Installed(cache: Cache, now: Time, f: Fetch): Cache {
    Cache(Some(Current(now, f.kid, f.secret)), cache.byKid[f.kid := f.secret])
  }

  predicate Fresh(cache: Cache, now: Time) {
    cache.current.Some? && now - cache.current.value.stamp < CACHE_TTL
  }

  /** What a step that answers "the current secret" answers. */
  function Answer(s: State, e: Event): Option<(nat, Secret)> {
    match e
    case Install(f) => Some((f.kid, f.secret))
    case Hit(r) =>
      if r < |s.caches| && s.caches[r].current.Some? then
        Some((s.caches[r].current.value.kid, s.caches[r].current.value.secret))
      else None
    case _ => None
  }

  /** What a lookup by kid answers when the database does. */
  function Lookup(s: State, r: nat, kid: nat): Option<Secret>
    requires r < |s.caches|
  {
    if kid in s.caches[r].byKid then Some(s.caches[r].byKid[kid])
    else if kid < EPHEMERAL_KID && kid in s.rows then Some(s.rows[kid].secret)
    else None
  }

  ghost predicate Run(c: Config, states: seq<State>, events: seq<Event>) {
    && |states| == |events| + 1
    && forall i :: 0 <= i < |events| ==> Next(c, states[i], events[i], states[i + 1])
  }

  // ----- the table -----

  /** The newest row is not retired, and kids are handed out upwards. */
  ghost predicate TableInv(s: State) {
    && (forall k :: k in s.rows ==> k < s.nextKid <= EPHEMERAL_KID)
    && (forall k :: IsNewest(s.rows, k) ==> s.rows[k].retired.None?)
  }

  ghost predicate HasNewest(rows: Table) {
    exists k :: IsNewest(rows, k)
  }

  lemma {:induction false} NewestExists(rows: Table)
    requires rows != map[]
    ensures HasNewest(rows)
    decreases |rows|
  {
    var k :| k in rows;
    var rest := rows - {k};
    if rest == map[] {
      assert forall j :: j in rows && j != k ==> j in rest;
      assert IsNewest(rows, k);
    } else {
      assert rest.Keys == rows.Keys - {k};
      NewestExists(rest);
      var m :| IsNewest(rest, m);
      assert forall j :: j in rows && j != k ==> j in rest;
      assert IsNewest(rows, if m < k then k else m);
    }
  }

  lemma PruneKeepsNewest(rows: Table, at: Time, retention: real, k: nat)
    requires IsNewest(rows, k) && rows[k].retired.None?
    ensures IsNewest(Pruned(rows, at, retention), k)
    ensures forall j :: IsNewest(Pruned(rows, at, retention), j) ==> j == k
  {
  }

  /** A filled table stays filled, and its newest row stays unretired, over every step. */
  lemma NextKeepsTable(c: Config, s: State, e: Event, t: State)
    requires TableInv(s) && Next(c, s, e, t)
    ensures TableInv(t) && (s.rows != map[] ==> t.rows != map[])
  {
    match e
    case Rotate(kid, secret, begun) =>
      assert kid in t.rows && forall k :: IsNewest(t.rows, k) ==> kid <= k;
      assert forall k :: k in t.rows ==> k <= kid;
    case Prune(at) =>
      if s.rows != map[] {
        NewestExists(s.rows);
        var k :| IsNewest(s.rows, k);
        PruneKeepsNewest(s.rows, at, c.retention, k);
      }
    case Mint(f) =>
      assert f.kid in t.rows && forall k :: IsNewest(t.rows, k) ==> f.kid <= k;
    case _ =>
      assert t.rows == s.rows && t.nextKid == s.nextKid;
  }

  // ----- how long a secret is kept -----

  /** A row read as current at `r` is there with its secret until `r + retention - commit`. */
  ghost predicate Kept(c: Config, s: State, kid: nat, secret: Secret, r: Time) {
    || s.now > r + WholeSeconds(c.retention) - c.commit
    || (kid in s.rows && s.rows[kid].secret == secret
        && (s.rows[kid].retired.Some? ==> s.rows[kid].retired.value >= r - c.commit))
  }

  lemma KeptStays(c: Config, s: State, e: Event, t: State, kid: nat, secret: Secret, r: Time)
    requires TableInv(s) && Next(c, s, e, t) && Kept(c, s, kid, secret, r) && r <= s.now
    ensures Kept(c, t, kid, secret, r)
  {
  }

  /** Every persisted secret a replica holds, or is about to, is kept long enough from when it was read. */
  ghost predicate CacheInv(c: Config, s: State) {
    && (forall f :: f in s.inFlight && f.kid < EPHEMERAL_KID ==> f.readAt <= s.now && Kept(c, s, f.kid, f.secret, f.readAt))
    && (forall i :: 0 <= i < |s.caches| ==> CurrentKept(c, s, s.caches[i].current))
  }

  ghost predicate CurrentKept(c: Config, s: State, o: Option<Current>) {
    o.Some? && o.value.kid < EPHEMERAL_KID ==>
      o.value.stamp <= s.now && Kept(c, s, o.value.kid, o.value.secret, o.value.stamp - c.latency)
  }

  lemma CachesStayKept(c: Config, s: State, e: Event, t: State)
    requires c.latency >= 0.0 && TableInv(s) && CacheInv(c, s) && Next(c, s, e, t)
    ensures forall f :: f in s.inFlight && f.kid < EPHEMERAL_KID ==> f.readAt <= t.now && Kept(c, t, f.kid, f.secret, f.readAt)
    ensures forall i :: 0 <= i < |s.caches| ==> CurrentKept(c, t, s.caches[i].current)
  {
    assert t.now >= s.now;
    hide Next, TableInv, Kept;
    forall f | f in s.inFlight && f.kid < EPHEMERAL_KID
      ensures f.readAt <= t.now && Kept(c, t, f.kid, f.secret, f.readAt)
    {
      KeptStays(c, s, e, t, f.kid, f.secret, f.readAt);
    }
    forall i | 0 <= i < |s.caches|
      ensures CurrentKept(c, t, s.caches[i].current)
    {
      assert CurrentKept(c, s, s.caches[i].current);
      var o := s.caches[i].current;
      if o.Some? && o.value.kid < EPHEMERAL_KID {
        KeptStays(c, s, e, t, o.value.kid, o.value.secret, o.value.stamp - c.latency);
      }
    }
  }

  lemma NextKeepsCaches(c: Config, s: State, e: Event, t: State)
    requires c.latency >= 0.0 && c.commit >= 0.0 && TableInv(s) && CacheInv(c, s) && Next(c, s, e, t)
    ensures CacheInv(c, t)
  {
    CachesStayKept(c, s, e, t);
    hide Rotated, Pruned, CACHE_TTL;
    assert e.Read? ==> Kept(c, t, e.fetch.kid, e.fetch.secret, e.fetch.readAt);
    assert e.Mint? ==> Kept(c, t, e.fetch.kid, e.fetch.secret, e.fetch.readAt);
    if e.Install? && e.fetch.kid < EPHEMERAL_KID {
      assert Kept(c, t, e.fetch.kid, e.fetch.secret, e.fetch.readAt);
      assert Kept(c, t, e.fetch.kid, e.fetch.secret, t.now - c.latency);
    }
    forall i | 0 <= i < |t.caches|
      ensures CurrentKept(c, t, t.caches[i].current)
    {
      hide Kept, IsNewest;
      assert t.caches[i].current == s.caches[i].current || t.caches[i].current.None?
        || (e.Install? && t.caches[i].current == Some(Current(t.now, e.fetch.kid, e.fetch.secret)));
    }
  }

  // ----- one secret per kid -----

  /** Some row, cache or read in flight takes `kid` to mean `secret`. */
  ghost predicate Held(s: State, kid: nat, secret: Secret) {
    || (kid in s.rows && s.rows[kid].secret == secret)
    || (exists f :: f in s.inFlight && f.kid == kid && f.secret == secret)
    || (exists r :: 0 <= r < |s.caches| && kid in s.caches[r].byKid && s.caches[r].byKid[kid] == secret)
  }

  /** No persisted kid means two secrets anywhere, and none is handed out again. */
  ghost predicate KidInv(s: State) {
    && (forall k: nat, x :: k < EPHEMERAL_KID && Held(s, k, x) ==> k < s.nextKid)
    && (forall k: nat, x, y :: k < EPHEMERAL_KID && Held(s, k, x) && Held(s, k, y) ==> x == y)
  }

  /** Only a rotation or a mint brings in a kid, and it is a new one. */
  predicate Brings(s: State, e: Event, kid: nat, secret: Secret) {
    match e
    case Rotate(k, x, _) => k == kid && x == secret && s.nextKid <= kid
    case Mint(f) => f.kid == kid && f.secret == secret && s.nextKid <= kid
    case _ => false
  }

  lemma HeldBefore(c: Config, s: State, e: Event, t: State, kid: nat, secret: Secret)
    requires Next(c, s, e, t) && kid < EPHEMERAL_KID && Held(t, kid, secret)
    ensures s.nextKid <= t.nextKid
    ensures Held(s, kid, secret) || (Brings(s, e, kid, secret) && kid < t.nextKid)
  {
    if r :| 0 <= r < |t.caches| && kid in t.caches[r].byKid && t.caches[r].byKid[kid] == secret {
      assert t.caches[r].byKid == s.caches[r].byKid || (e.Install? && r == e.fetch.replica)
          || (e.Resolve? && r == e.replica) || e.Restart?;
    }
  }

  lemma NextKeepsKids(c: Config, s: State, e: Event, t: State)
    requires KidInv(s) && Next(c, s, e, t)
    ensures KidInv(t)
  {
    hide Held, Next;
    forall k: nat, x | k < EPHEMERAL_KID && Held(t, k, x)
      ensures k < t.nextKid
    {
      HeldBefore(c, s, e, t, k, x);
    }
    forall k: nat, x, y | k < EPHEMERAL_KID && Held(t, k, x) && Held(t, k, y)
      ensures x == y
    {
      HeldBefore(c, s, e, t, k, x);
      HeldBefore(c, s, e, t, k, y);
    }
  }

  // ----- runs -----

  ghost predicate Inv(c: Config, s: State) {
    TableInv(s) && CacheInv(c, s) && KidInv(s) && 0.0 <= c.latency && 0.0 <= c.commit
  }

  /** An empty table and cold caches. */
  lemma InitialInv(c: Config, now: Time, replicas: nat)
    requires 0.0 <= c.latency && 0.0 <= c.commit
    ensures Inv(c, State(map[], 1, now, seq(replicas, _ => Cache(None, map[])), {}))
  {
  }

  lemma {:induction false} RunKeepsInv(c: Config, states: seq<State>, events: seq<Event>, n: nat)
    requires Run(c, states, events) && Inv(c, states[0]) && n < |states|
    ensures Inv(c, states[n])
    ensures states[0].rows != map[] ==> states[n].rows != map[]
  {
    hide Next, TableInv, CacheInv, KidInv;
    if n > 0 {
      RunKeepsInv(c, states, events, n - 1);
      assert Next(c, states[n - 1], events[n - 1], states[n - 1 + 1]);
      NextKeepsTable(c, states[n - 1], events[n - 1], states[n]);
      NextKeepsCaches(c, states[n - 1], events[n - 1], states[n]);
      NextKeepsKids(c, states[n - 1], events[n - 1], states[n]);
    }
  }

  /** An answer given at `t.now` was read at most the cache lifetime and one read before. */
  lemma AnswerIsKept(c: Config, s: State, e: Event, t: State)
    requires Inv(c, s) && Next(c, s, e, t) && Answer(s, e).Some? && Answer(s, e).value.0 < EPHEMERAL_KID
    ensures Kept(c, t, Answer(s, e).value.0, Answer(s, e).value.1, t.now - CACHE_TTL - c.latency)
  {
    CachesStayKept(c, s, e, t);
    if e.Hit? {
      assert CurrentKept(c, t, s.caches[e.replica].current);
    }
  }

  lemma {:induction false} KeptUntil(c: Config, states: seq<State>, events: seq<Event>, m: nat, n: nat, kid: nat, secret: Secret, r: Time)
    requires Run(c, states, events) && Inv(c, states[0]) && m <= n < |states|
    requires Kept(c, states[m], kid, secret, r) && r <= states[m].now
    ensures Kept(c, states[n], kid, secret, r) && r <= states[n].now
    decreases n
  {
    hide TableInv, CacheInv, KidInv, Kept;
    if m < n {
      KeptUntil(c, states, events, m, n - 1, kid, secret, r);
      RunKeepsInv(c, states, events, n - 1);
      assert Next(c, states[n - 1], events[n - 1], states[n - 1 + 1]);
      KeptStays(c, states[n - 1], events[n - 1], states[n], kid, secret, r);
    }
  }

  /** Main result. A persisted secret answered as current at time `t` is in the table, and every replica's lookup of
      its kid gives that secret, at every later moment up to `t + retention - 60 s`, less the time that a read and a
      rotation may themselves take. */
  lemma AnsweredSecretIsFound(c: Config, states: seq<State>, events: seq<Event>, i: nat, n: nat)
    requires Run(c, states, events) && Inv(c, states[0]) && i < n < |states|
    requires Answer(states[i], events[i]).Some? && Answer(states[i], events[i]).value.0 < EPHEMERAL_KID
    requires states[n].now <= states[i + 1].now + WholeSeconds(c.retention) - CACHE_TTL - c.latency - c.commit
    ensures Answer(states[i], events[i]).value.0 in states[n].rows
    ensures forall r :: 0 <= r < |states[n].caches| ==>
      Lookup(states[n], r, Answer(states[i], events[i]).value.0) == Some(Answer(states[i], events[i]).value.1)
  {
    hide TableInv, CacheInv, KidInv;
    var a := Answer(states[i], events[i]).value;
    RunKeepsInv(c, states, events, i);
    assert Next(c, states[i], events[i], states[i + 1]);
    AnswerIsKept(c, states[i], events[i], states[i + 1]);
    KeptUntil(c, states, events, i + 1, n, a.0, a.1, states[i + 1].now - CACHE_TTL - c.latency);
    RunKeepsInv(c, states, events, n);
    LookupsAgree(states[n], a.0, a.1);
  }

  lemma LookupsAgree(s: State, kid: nat, secret: Secret)
    requires KidInv(s) && kid < EPHEMERAL_KID && kid in s.rows && s.rows[kid].secret == secret
    ensures forall r :: 0 <= r < |s.caches| ==> Lookup(s, r, kid) == Some(secret)
  {
    assert Held(s, kid, secret);
    forall r | 0 <= r < |s.caches|
      ensures Lookup(s, r, kid) == Some(secret)
    {
      if kid in s.caches[r].byKid {
        assert Held(s, kid, s.caches[r].byKid[kid]);
      }
    }
  }

  // ----- how long a secret can be kept -----

  /** The row is gone for good, or retired no later than `b`. */
  ghost predicate Ending(s: State, kid: nat, b: Time) {
    kid < s.nextKid && (kid in s.rows ==> s.rows[kid].retired.Some? && s.rows[kid].retired.value <= b)
  }

  lemma EndingStays(c: Config, s: State, e: Event, t: State, kid: nat, b: Time)
    requires Next(c, s, e, t) && Ending(s, kid, b)
    ensures Ending(t, kid, b)
  {
  }

  lemma {:induction false} EndingUntil(c: Config, states: seq<State>, events: seq<Event>, m: nat, n: nat, kid: nat, b: Time)
    requires Run(c, states, events) && m <= n < |states| && Ending(states[m], kid, b)
    ensures Ending(states[n], kid, b)
    decreases n
  {
    hide Ending;
    if m < n {
      EndingUntil(c, states, events, m, n - 1, kid, b);
      assert Next(c, states[n - 1], events[n - 1], states[n - 1 + 1]);
      EndingStays(c, states[n - 1], events[n - 1], states[n], kid, b);
    }
  }

  ghost predicate OnlyCurrent(rows: Table, kid: nat) {
    kid in rows && forall k :: k in rows ==> (rows[k].retired.None? <==> k == kid)
  }

  /** The other side of the bound: a rotation leaves its own row as the only current one, and a row it retired is out of
      the table for good after any prune later than the rotation's start plus the retention. */
  lemma SupersededSecretExpires(c: Config, states: seq<State>, events: seq<Event>, i: nat, j: nat, n: nat, kid: nat)
    requires Run(c, states, events) && Inv(c, states[0]) && i < j < n < |states|
    requires events[i].Rotate? && kid in states[i].rows && states[i].rows[kid].retired.None?
    requires events[j].Prune? && events[j].at > events[i].begun + WholeSeconds(c.retention)
    ensures OnlyCurrent(states[i + 1].rows, events[i].kid)
    ensures kid !in states[n].rows
  {
    hide CacheInv, KidInv;
    RunKeepsInv(c, states, events, i);
    assert Next(c, states[i], events[i], states[i + 1]);
    assert Ending(states[i + 1], kid, events[i].begun);
    EndingUntil(c, states, events, i + 1, j, kid, events[i].begun);
    assert Next(c, states[j], events[j], states[j + 1]);
    assert kid !in states[j + 1].rows;
    GoneUntil(c, states, events, j + 1, n, kid);
  }

  lemma {:induction false} GoneUntil(c: Config, states: seq<State>, events: seq<Event>, m: nat, n: nat, kid: nat)
    requires Run(c, states, events) && m <= n < |states| && kid !in states[m].rows && kid < states[m].nextKid
    ensures kid !in states[n].rows && kid < states[n].nextKid
    decreases n
  {
    if m < n {
      GoneUntil(c, states, events, m, n - 1, kid);
      assert Next(c, states[n - 1], events[n - 1], states[n - 1 + 1]);
    }
  }

  /** A replica has read the secret of `kid` and may still be about to cache it. */
  ghost predicate Fetching(c: Config, s: State, r: nat, kid: nat) {
    exists f :: f in s.inFlight && f.replica == r && f.kid == kid && s.now - f.readAt <= c.latency
  }

  ghost predicate Cached(s: State, r: nat, kid: nat) {
    r < |s.caches| && kid in s.caches[r].byKid
  }

  lemma GoneStep(c: Config, s: State, e: Event, t: State, r: nat, kid: nat)
    requires Next(c, s, e, t) && kid < EPHEMERAL_KID && kid !in s.rows && kid < s.nextKid && !Fetching(c, s, r, kid)
    ensures kid !in t.rows && kid < t.nextKid && !Fetching(c, t, r, kid)
    ensures Cached(t, r, kid) <==> Cached(s, r, kid) && e != Restart(r)
  {
  }

  /** Caches are not evicted: over every run from a state in which the kid is out of the table and `r` is not about to
      cache it, `r` goes on finding it exactly if it had it cached and has not restarted since. */
  lemma {:induction false} LookupEndsExactly(c: Config, states: seq<State>, events: seq<Event>, m: nat, n: nat, r: nat, kid: nat)
    requires Run(c, states, events) && m <= n < |states| && r < |states[m].caches|
    requires kid < EPHEMERAL_KID && kid !in states[m].rows && kid < states[m].nextKid && !Fetching(c, states[m], r, kid)
    ensures kid !in states[n].rows && kid < states[n].nextKid && !Fetching(c, states[n], r, kid) && |states[n].caches| == |states[m].caches|
    ensures Lookup(states[n], r, kid).Some? <==> Cached(states[m], r, kid) && forall i :: m <= i < n ==> events[i] != Restart(r)
    decreases n
  {
    hide Fetching;
    if m < n {
      LookupEndsExactly(c, states, events, m, n - 1, r, kid);
      assert Next(c, states[n - 1], events[n - 1], states[n - 1 + 1]);
      GoneStep(c, states[n - 1], events[n - 1], states[n], r, kid);
    }
  }

  /** With a retention longer than a read and a rotation take, nobody is about to cache a secret that was pruned. */
  lemma PrunedIsNotFetched(c: Config, s: State, r: nat, kid: nat)
    requires CacheInv(c, s) && kid < EPHEMERAL_KID && kid !in s.rows && WholeSeconds(c.retention) >= c.latency + c.commit
    ensures !Fetching(c, s, r, kid)
  {
  }

  /** So after the prune a superseded secret goes on being found by exactly the replicas that have it cached, until they
      restart. */
  lemma SupersededLookupExactly(c: Config, states: seq<State>, events: seq<Event>, i: nat, j: nat, n: nat, kid: nat, r: nat)
    requires Run(c, states, events) && Inv(c, states[0]) && i < j < n < |states| && kid < EPHEMERAL_KID
    requires events[i].Rotate? && kid in states[i].rows && states[i].rows[kid].retired.None?
    requires events[j].Prune? && events[j].at > events[i].begun + WholeSeconds(c.retention)
    requires WholeSeconds(c.retention) >= c.latency + c.commit && r < |states[j + 1].caches|
    ensures r < |states[n].caches|
    ensures Lookup(states[n], r, kid).Some?
       <==> Cached(states[j + 1], r, kid) && forall m :: j + 1 <= m < n ==> events[m] != Restart(r)
  {
    hide CacheInv, KidInv, Fetching;
    SupersededSecretExpires(c, states, events, i, j, j + 1, kid);
    RunKeepsInv(c, states, events, i);
    RunKeepsInv(c, states, events, j + 1);
    PrunedIsNotFetched(c, states[j + 1], r, kid);
    StaysBelowNext(c, states, events, i, j + 1, kid);
    LookupEndsExactly(c, states, events, j + 1, n, r, kid);
  }

  /** Kids below the next one stay below it. */
  lemma {:induction false} StaysBelowNext(c: Config, states: seq<State>, events: seq<Event>, m: nat, n: nat, kid: nat)
    requires Run(c, states, events) && m <= n < |states| && kid in states[m].rows && TableInv(states[m])
    ensures kid < states[n].nextKid
    decreases n
  {
    if m < n {
      StaysBelowNext(c, states, events, m, n - 1, kid);
      assert Next(c, states[n - 1], events[n - 1], states[n - 1 + 1]);
    }
  }

  /** Process-local kids are those with the top bit of 64 set, which no signed column holds. */
  lemma EphemeralIsTopBit(tag: nat)
    requires tag < EPHEMERAL_KID
    ensures U64 / 2 <= EPHEMERAL_KID + tag < U64
  {
  }

  /** A process-local kid is known to no replica that does not hold it in its own cache. */
  lemma EphemeralStaysLocal(s: State, r: nat, kid: nat)
    requires r < |s.caches| && kid >= EPHEMERAL_KID
    ensures Lookup(s, r, kid).Some? <==> kid in s.caches[r].byKid
  {
  }

  // ----- the exact bound -----

  /** How long after an answer its secret is sure to be found. */
  function Bound(c: Config): real {
    WholeSeconds(c.retention) - CACHE_TTL - c.latency - c.commit
  }

  /** State `n` comes after a persisted answer at step `i`, by no more than `span`. */
  ghost predicate AnsweredWithin(c: Config, states: seq<State>, events: seq<Event>, i: nat, n: nat, span: real)
    requires Run(c, states, events)
  {
    && i < n < |states| && Inv(c, states[0])
    && Answer(states[i], events[i]).Some? && Answer(states[i], events[i]).value.0 < EPHEMERAL_KID
    && states[n].now <= states[i + 1].now + span
  }

  /** In every run, a persisted secret answered as current is in the table for `span` after. */
  ghost predicate FoundFor(c: Config, span: real) {
    forall states: seq<State>, events: seq<Event>, i: nat, n: nat ::
      Run(c, states, events) && AnsweredWithin(c, states, events, i, n, span) ==> Answer(states[i], events[i]).value.0 in states[n].rows
  }

  /** The bound is tight: over all runs a secret is found for `span` after an answer if and only if `span` is within it,
      or negative. */
  lemma BoundExactly(c: Config, span: real)
    requires 0.0 <= c.latency && 0.0 <= c.commit
    ensures FoundFor(c, span) <==> span < 0.0 || span <= Bound(c)
  {
    hide Inv, Next, Answer, Bound, WholeSeconds;
    if span < 0.0 {
      forall states: seq<State>, events: seq<Event>, i: nat, n: nat | Run(c, states, events) && AnsweredWithin(c, states, events, i, n, span)
        ensures false
      {
        TimePasses(c, states, events, i + 1, n);
      }
    } else if span <= Bound(c) {
      forall states: seq<State>, events: seq<Event>, i: nat, n: nat | Run(c, states, events) && AnsweredWithin(c, states, events, i, n, span)
        ensures Answer(states[i], events[i]).value.0 in states[n].rows
      {
        assert states[n].now <= states[i + 1].now + WholeSeconds(c.retention) - CACHE_TTL - c.latency - c.commit by { BoundIs(c); }
        AnsweredSecretIsFound(c, states, events, i, n);
      }
    } else {
      var states, events := SlowRead(c, span);
      assert AnsweredWithin(c, states, events, 3, 5, span);
    }
  }

  lemma BoundIs(c: Config)
    ensures Bound(c) == WholeSeconds(c.retention) - CACHE_TTL - c.latency - c.commit
  {
  }

  /** What the documentation suggests, found until `t + retention - 60 s`, holds exactly when reads and rotations take
      no time and the retention is in whole seconds. */
  lemma DocumentedBoundExactly(c: Config)
    requires 0.0 <= c.latency && 0.0 <= c.commit && c.retention >= CACHE_TTL
    ensures FoundFor(c, c.retention - CACHE_TTL)
       <==> c.latency == 0.0 && c.commit == 0.0 && c.retention == WholeSeconds(c.retention)
  {
    BoundExactly(c, c.retention - CACHE_TTL);
    assert WholeSeconds(c.retention) <= c.retention;
    hide FoundFor;
  }

  /** For one: a retention of 100.5 s, with no time lost otherwise, does not give the 40.5 s it suggests. */
  lemma FractionIsLost()
    ensures !FoundFor(Config(100.5, 0.0, 0.0), 40.5)
  {
    hide FoundFor;
    DocumentedBoundExactly(Config(100.5, 0.0, 0.0));
    assert WholeSeconds(100.5) == 100.0;
  }

  lemma {:induction false} TimePasses(c: Config, states: seq<State>, events: seq<Event>, m: nat, n: nat)
    requires Run(c, states, events) && m <= n < |states|
    ensures states[m].now <= states[n].now
    decreases n
  {
    if m < n {
      TimePasses(c, states, events, m, n - 1);
      assert Next(c, states[n - 1], events[n - 1], states[n - 1 + 1]);
    }
  }

  lemma FirstSecretInv(c: Config, secret: Secret)
    requires 0.0 <= c.latency && 0.0 <= c.commit
    ensures Inv(c, State(map[1 := Row(secret, None)], 2, 0.0, [Cache(None, map[])], {}))
  {
  }

  lemma SlowTables(late: Time, retention: real, old1: Table, both: Table, last: Table)
    requires old1 == map[1 := Row([], None)] && both == map[1 := Row([], Some(0.0)), 2 := Row([1], None)]
    requires last == map[2 := Row([1], None)] && late > WholeSeconds(retention)
    ensures Rotated(old1, 2, [1], 0.0) == both && Pruned(both, late, retention) == last && IsNewest(old1, 1)
  {
  }

  /** A row read just before a rotation commits, cached late, answered from the cache at the last moment and pruned at
      the first: missing within any `span` beyond the bound. */
  lemma SlowRead(c: Config, span: real) returns (states: seq<State>, events: seq<Event>)
    requires 0.0 <= c.latency && 0.0 <= c.commit && 0.0 <= span && Bound(c) < span
    ensures Run(c, states, events) && AnsweredWithin(c, states, events, 3, 5, span)
    ensures Answer(states[3], events[3]).value.0 !in states[5].rows
  {
    var whole := WholeSeconds(c.retention);
    assert whole - 60.0 - c.latency - c.commit < span;
    hide Inv, Rotated, Pruned, IsNewest, WholeSeconds, Bound;
    var d := if span - (whole - 60.0 - c.latency - c.commit) < 60.0 then (span - (whole - 60.0 - c.latency - c.commit)) / 2.0 else 30.0;
    var f := Fetch(0, c.commit, 1, []);
    var old1: Table := map[1 := Row([], None)];
    var both: Table := map[1 := Row([], Some(0.0)), 2 := Row([1], None)];
    var last: Table := map[2 := Row([1], None)];
    var cold := Cache(None, map[]);
    var warm := Installed(cold, c.commit + c.latency, f);
    var hit := c.commit + c.latency + 60.0 - d;
    var late := if hit < whole + d then whole + d else hit;
    var s0 := State(old1, 2, 0.0, [cold], {});
    var s1 := State(old1, 2, c.commit, [cold], {f});
    var s2 := State(both, 3, c.commit, [cold], {f});
    var s3 := State(both, 3, c.commit + c.latency, [warm], {});
    var s4 := State(both, 3, hit, [warm], {});
    var s5 := State(last, 3, late, [warm], {});
    SlowTables(late, c.retention, old1, both, last);
    FirstSecretInv(c, []);
    assert Next(c, s0, Read(f), s1);
    assert Next(c, s1, Rotate(2, [1], 0.0), s2);
    assert Next(c, s2, Install(f), s3);
    assert Next(c, s3, Hit(0), s4);
    assert Next(c, s4, Prune(late), s5);
    hide Next;
    states := [s0, s1, s2, s3, s4, s5];
    events := [Read(f), Rotate(2, [1], 0.0), Install(f), Hit(0), Prune(late)];
  }

  // ----- the methods -----

  /** One replica and the table it talks to. */
  class SecretStore {
    var rows: Table
    var nextKid: nat
    var cache: Cache

    constructor ()
      ensures rows == map[] && nextKid == 1 && cache == Cache(None, map[])
    {
      rows, nextKid, cache := map[], 1, Cache(None, map[]);
    }

    ghost function View(now: Time): State
      reads this
    {
      State(rows, nextKid, now, [cache], {})
    }

    /** `rotate_locked`: one transaction begun at `begun` and committed at `committed`, then a prune at `at`. */
    method RotateLocked(secret: Secret, begun: Time, ghost committed: Time, at: Time, c: Config)
        returns (retired: nat, pruned: nat, ghost mid: State)
      requires nextKid < EPHEMERAL_KID && begun <= committed <= begun + c.commit && committed <= at
      modifies this
      ensures mid.now == committed
      ensures Next(c, old(View(begun)), Rotate(old(nextKid), secret, begun), mid)
      ensures Next(c, mid, Prune(at), View(at))
      ensures retired == |set k | k in old(rows) && old(rows)[k].retired.None?|
      ensures pruned == |mid.rows.Keys - rows.Keys|
    {
      retired := |set k | k in rows && rows[k].retired.None?|;
      rows, nextKid := Rotated(rows, nextKid, secret, begun), nextKid + 1;
      mid := View(committed);
      var before := rows;
      rows := Pruned(rows, at, c.retention);
      pruned := |before.Keys - rows.Keys|;
    }

    /** The read: the row of the highest kid. */
    method Newest() returns (kid: Option<nat>)
      ensures kid.None? <==> rows == map[]
      ensures kid.Some? ==> IsNewest(rows, kid.value)
    {
      kid := None;
      var todo := rows.Keys;
      while todo != {}
        invariant todo <= rows.Keys && (kid.None? <==> todo == rows.Keys)
        invariant kid.Some? ==> kid.value in rows && forall k :: k in rows && k !in todo ==> k <= kid.value
        decreases todo
      {
        var k :| k in todo;
        kid := if kid.None? || kid.value < k then Some(k) else kid;
        todo := todo - {k};
      }
    }

    /** `current_capability_secret_db`, called at `now` and stamping its cache at `later`: a cache hit, or a read that
        falls back to a mint and that to a process-local secret. The answer is the last of the steps it takes. */
    method CurrentSecret(now: Time, later: Time, readFails: bool, insertFails: bool, minted: Secret, tag: nat, ghost c: Config)
        returns (kid: nat, secret: Secret, ghost states: seq<State>, ghost events: seq<Event>)
      requires now <= later <= now + c.latency
      modifies this
      ensures Run(c, states, events) && 1 <= |events| <= 2
      ensures states[0] == old(View(now)) && states[|events|] == View(states[|events|].now)
      ensures Answer(states[|events| - 1], events[|events| - 1]) == Some((kid, secret))
      ensures |events| == 1 <==> Fresh(old(cache), now)
      ensures |events| == 2 ==> states[2].now == later && (events[0].Read? <==> !readFails && old(rows) != map[])
      ensures |events| == 2 && events[0].Read? ==> rows == old(rows) && IsNewest(rows, kid) && secret == rows[kid].secret
      ensures |events| == 2 && events[0].Mint? ==>
        secret == minted && kid == old(nextKid) && rows == old(rows)[kid := Row(minted, None)] && nextKid == kid + 1
      ensures |events| == 2 && events[0].MakeEphemeral? ==> secret == minted && kid == EPHEMERAL_KID + tag && rows == old(rows)
      ensures |events| == 1 ==> rows == old(rows) && cache == old(cache)
      ensures |events| == 2 ==> cache == Cache(Some(Current(later, kid, secret)), old(cache).byKid[kid := secret])
      ensures |events| == 2 && !events[0].Read? ==> (events[0].Mint? <==> !insertFails && old(nextKid) < EPHEMERAL_KID)
    {
      ghost var start := View(now);
      if Fresh(cache, now) {
        kid, secret := cache.current.value.kid, cache.current.value.secret;
        states, events := [start, start], [Hit(0)];
        return;
      }
      var found := Newest();
      ghost var step: Event;
      if !readFails && found.Some? {
        kid := found.value;
        secret := rows[kid].secret;
        step := Read(Fetch(0, now, kid, secret));
      } else if !insertFails && nextKid < EPHEMERAL_KID {
        kid, secret := nextKid, minted;
        rows, nextKid := rows[kid := Row(secret, None)], kid + 1;
        step := Mint(Fetch(0, now, kid, secret));
      } else {
        kid, secret := EPHEMERAL_KID + tag, minted;
        step := MakeEphemeral(Fetch(0, now, kid, secret));
      }
      ghost var mid := View(now).(inFlight := {step.fetch});
      cache := Cache(Some(Current(later, kid, secret)), cache.byKid[kid := secret]);
      states, events := [start, mid, View(later)], [step, Install(step.fetch)];
      assert Next(c, start, step, mid);
      assert Next(c, mid, Install(step.fetch), View(later));
    }

    /** `capability_secret_db`: the cache, then the table unless the kid cannot be in it. */
    method SecretByKid(kid: nat, now: Time, readFails: bool, ghost c: Config) returns (r: Option<Secret>)
      modifies this`cache
      ensures !readFails ==> r == Lookup(old(View(now)), 0, kid)
      ensures readFails ==> r == if kid in old(cache).byKid then Some(old(cache).byKid[kid]) else None
      ensures cache == old(cache) || Next(c, old(View(now)), Resolve(0, kid), View(now))
      ensures r.Some? ==> kid in cache.byKid && cache.byKid[kid] == r.value
    {
      if kid in cache.byKid {
        return Some(cache.byKid[kid]);
      }
      if kid >= EPHEMERAL_KID || readFails || kid !in rows {
        return None;
      }
      r := Some(rows[kid].secret);
      cache := cache.(byKid := cache.byKid[kid := rows[kid].secret]);
    }
  }
}
