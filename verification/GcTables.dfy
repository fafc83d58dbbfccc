/** The collector's tables and the SQL statements over them, each statement one function
    (`crates/server/src/gc.rs`, `crates/server/src/postgres_store.rs`, and the schema under
    `crates/server/migrations`). */
module GcTables {
  import opened Numerals
  import opened Trust

  type Key = string
  type Time = int

  datatype PathState = Live | Marked | Purging

  datatype RowId = RowId(tenant: string, path: string)

  datatype Row = Row(tier: Tier, refs: seq<string>, objectKey: Option<Key>,
                     state: PathState, lastAccess: Time, markedAt: Option<Time>)

  /** `store_paths`. */
  type Paths = map<RowId, Row>

  /** One queued access: a `path_access` row. */
  datatype Access = Access(id: RowId, at: Time)

  predicate Names(row: Row, key: Key) {
    row.objectKey == Some(key)
  }

  function Max(a: Time, b: Time): Time {
    if a >= b then a else b
  }

  // ----- the writer's statement -----

  /** `upsert_path_inner`'s second statement: the row is replaced and comes back to life. */
  function Upsert(paths: Paths, id: RowId, tier: Tier, refs: seq<string>, key: Key, now: Time): Paths {
    paths[id := Row(tier, refs, Some(key), Live, now, None)]
  }

  // ----- draining the access queue -----

  /** `MAX(at)` over the claimed accesses to one row. */
  function Latest(claimed: seq<Access>, id: RowId): Option<Time> {
    if claimed == [] then None
    else
      var rest := Latest(claimed[1..], id);
      if claimed[0].id != id then rest
      else if rest.None? then Some(claimed[0].at)
      else Some(Max(claimed[0].at, rest.value))
  }

  /** The update of one row by its latest claimed access: recency grows, and a mark is lifted. */
  function Touch(row: Row, at: Time): Row {
    row.(lastAccess := Max(row.lastAccess, at),
         state := if row.state == Marked then Live else row.state,
         markedAt := if row.state == Marked then None else row.markedAt)
  }

  function TouchIf(row: Row, at: Option<Time>): Row {
    if at.None? then row else Touch(row, at.value)
  }

  /** The drain statement over the accesses it claims. */
  function Drain(paths: Paths, claimed: seq<Access>): Paths {
    map id | id in paths :: TouchIf(paths[id], Latest(claimed, id))
  }

  /** `m` is the time of the latest access to `id`. */
  ghost predicate IsLatest(claimed: seq<Access>, id: RowId, m: Time) {
    && Access(id, m) in claimed
    && forall a :: a in claimed && a.id == id ==> a.at <= m
  }

  lemma {:induction false} LatestIsLatest(claimed: seq<Access>, id: RowId)
    ensures Latest(claimed, id).None? <==> forall a :: a in claimed ==> a.id != id
    ensures Latest(claimed, id).Some? ==> IsLatest(claimed, id, Latest(claimed, id).value)
  {
    if claimed != [] {
      LatestIsLatest(claimed[1..], id);
      assert claimed == [claimed[0]] + claimed[1..];
      var rest := Latest(claimed[1..], id);
      if rest.Some? {
        assert Access(id, rest.value) in claimed;
      }
    }
  }

  /** Only which accesses were claimed matters, not their order. */
  lemma LatestOfPermutation(a: seq<Access>, b: seq<Access>, id: RowId)
    requires multiset(a) == multiset(b)
    ensures Latest(a, id) == Latest(b, id)
  {
    LatestIsLatest(a, id);
    LatestIsLatest(b, id);
    SameElements(a, b);
  }

  lemma SameElements(a: seq<Access>, b: seq<Access>)
    requires multiset(a) == multiset(b)
    ensures forall x :: x in a <==> x in b
  {
    assert forall x :: x in a <==> x in multiset(a);
    assert forall x :: x in b <==> x in multiset(b);
  }

  lemma {:induction false} LatestOfConcat(a: seq<Access>, b: seq<Access>, id: RowId)
    ensures Latest(a + b, id)
         == if Latest(a, id).None? then Latest(b, id)
            else if Latest(b, id).None? then Latest(a, id)
            else Some(Max(Latest(a, id).value, Latest(b, id).value))
  {
    if a == [] {
      assert a + b == b;
    } else {
      assert (a + b)[0] == a[0] && (a + b)[1..] == a[1..] + b;
      LatestOfConcat(a[1..], b, id);
    }
  }

  /** Two drains in a row are the drain of both batches. */
  lemma DrainTwice(paths: Paths, a: seq<Access>, b: seq<Access>)
    ensures Drain(Drain(paths, a), b) == Drain(paths, a + b)
  {
    forall id | id in paths
      ensures Drain(Drain(paths, a), b)[id] == Drain(paths, a + b)[id]
    {
      LatestOfConcat(a, b, id);
    }
  }

  function DrainAll(paths: Paths, batches: seq<seq<Access>>): Paths {
    if batches == [] then paths else DrainAll(Drain(paths, batches[0]), batches[1..])
  }

  function Flatten(batches: seq<seq<Access>>): seq<Access> {
    if batches == [] then [] else batches[0] + Flatten(batches[1..])
  }

  lemma {:induction false} DrainAllIsOne(paths: Paths, batches: seq<seq<Access>>)
    ensures DrainAll(paths, batches) == Drain(paths, Flatten(batches))
  {
    if batches == [] {
      assert Drain(paths, []) == paths;
    } else {
      DrainAllIsOne(Drain(paths, batches[0]), batches[1..]);
      DrainTwice(paths, batches[0], Flatten(batches[1..]));
    }
  }

  /** Draining in batches of any size and order leaves what one drain of the whole queue leaves. */
  lemma DrainInAnyOrder(paths: Paths, queue: seq<Access>, batches: seq<seq<Access>>)
    requires multiset(Flatten(batches)) == multiset(queue)
    ensures DrainAll(paths, batches) == Drain(paths, queue)
  {
    DrainAllIsOne(paths, batches);
    forall id | id in paths
      ensures Drain(paths, Flatten(batches))[id] == Drain(paths, queue)[id]
    {
      LatestOfPermutation(Flatten(batches), queue, id);
    }
  }

  /** What a drain does to each row: one nobody accessed is as it was; of an accessed one the tier, references and key
      stay, its recency is the latest of what it was and the claimed accesses, a mark is lifted and the row live again,
      and a purging row goes on purging. */
  lemma DrainEffects(paths: Paths, claimed: seq<Access>, id: RowId)
    requires id in paths
    ensures id in Drain(paths, claimed)
    ensures (forall a :: a in claimed ==> a.id != id) ==> Drain(paths, claimed)[id] == paths[id]
    ensures (exists a :: a in claimed && a.id == id) ==> Accessed(paths[id], Drain(paths, claimed)[id])
    ensures Drain(paths, claimed)[id].lastAccess >= paths[id].lastAccess
    ensures forall a :: a in claimed && a.id == id ==> Drain(paths, claimed)[id].lastAccess >= a.at
    ensures Drain(paths, claimed)[id].lastAccess == paths[id].lastAccess
         || Access(id, Drain(paths, claimed)[id].lastAccess) in claimed
  {
    LatestIsLatest(claimed, id);
  }

  /** `after` is `before` brought back from a mark, and otherwise the same but for its recency. */
  predicate Accessed(before: Row, after: Row) {
    && after.tier == before.tier && after.refs == before.refs && after.objectKey == before.objectKey
    && (before.state == Purging ==> after.state == Purging && after.markedAt == before.markedAt)
    && (before.state == Live ==> after.state == Live && after.markedAt == before.markedAt)
    && (before.state == Marked ==> after.state == Live && after.markedAt == None)
  }

  // ----- the sweep's statements -----

  /** Some live row names the key. */
  predicate HasLiveReferrer(paths: Paths, key: Key) {
    exists id :: id in paths && paths[id].state == Live && Names(paths[id], key)
  }

  /** The candidate scan: objects no live row names. */
  function Candidates(paths: Paths, objects: set<Key>): set<Key> {
    set k | k in objects && !HasLiveReferrer(paths, k)
  }

  function TombstoneRow(row: Row, key: Key): Row {
    if Names(row, key) && row.state == Marked then row.(state := Purging) else row
  }

  /** The tombstone: marked rows that name the key start purging. */
  function Tombstone(paths: Paths, key: Key): Paths {
    map id | id in paths :: TombstoneRow(paths[id], key)
  }

  function ForgetRow(row: Row, key: Key): Row {
    if Names(row, key) then row.(objectKey := None) else row
  }

  /** The effect on `store_paths` of deleting an `objects` row: the foreign key is ON DELETE SET NULL. */
  function Forget(paths: Paths, key: Key): Paths {
    map id | id in paths :: ForgetRow(paths[id], key)
  }

  predicate Reapable(row: Row, objects: set<Key>) {
    row.state == Purging && (row.objectKey.None? || row.objectKey.value !in objects)
  }

  /** The self-healing reap. */
  function Reap(paths: Paths, objects: set<Key>): Paths {
    map id | id in paths && !Reapable(paths[id], objects) :: paths[id]
  }

  /** The foreign key: a row names only keys that have an `objects` row. */
  ghost predicate ForeignKey(paths: Paths, objects: set<Key>) {
    forall id :: id in paths && paths[id].objectKey.Some? ==> paths[id].objectKey.value in objects
  }
}
