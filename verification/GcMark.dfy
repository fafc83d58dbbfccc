/** Marking: which live rows `mark_expired` flips (`crates/server/src/gc.rs`). The recursive query is a
    worklist here, and is proved to compute reachability along chains of references. */
module GcMark {
  import opened Numerals
  import opened Trust
  import opened GcTables

  /** Seconds a path may go unread, per tier in the cutoff table. */
  datatype Cutoffs = Cutoffs(verified: int, built: int, quarantined: int)

  /** The cutoff table has no entry for `substituted`. */
  function CutoffOf(c: Cutoffs, t: Tier): Option<int> {
    match t
    case Verified => Some(c.verified)
    case Built => Some(c.built)
    case Quarantined => Some(c.quarantined)
    case Substituted => None
  }

  predicate Expired(row: Row, c: Cutoffs, now: Time) {
    var secs := CutoffOf(c, row.tier);
    secs.Some? && row.lastAccess < now - secs.value
  }

  predicate IsRoot(row: Row, c: Cutoffs, now: Time) {
    var secs := CutoffOf(c, row.tier);
    row.state == Live && secs.Some? && row.lastAccess >= now - secs.value
  }

  /** The references of a row, in its own tenant, whatever the row's state or tier. */
  function Successors(paths: Paths, id: RowId): set<RowId> {
    if id in paths then set p | p in paths[id].refs :: RowId(id.tenant, p) else {}
  }

  /** The row at `id` references `next`, in its own tenant. */
  predicate References(paths: Paths, id: RowId, next: RowId) {
    id in paths && next.tenant == id.tenant && next.path in paths[id].refs
  }

  /** A chain of references that starts at a live row within its cutoff. */
  ghost predicate Chain(paths: Paths, c: Cutoffs, now: Time, p: seq<RowId>) {
    && |p| > 0
    && p[0] in paths && IsRoot(paths[p[0]], c, now)
    && forall i :: 0 <= i < |p| - 1 ==> References(paths, p[i], p[i + 1])
  }

  ghost predicate Fresh(paths: Paths, c: Cutoffs, now: Time, id: RowId) {
    exists p :: Chain(paths, c, now, p) && p[|p| - 1] == id
  }

  lemma FreshRoot(paths: Paths, c: Cutoffs, now: Time, id: RowId)
    requires id in paths && IsRoot(paths[id], c, now)
    ensures Fresh(paths, c, now, id)
  {
    var p := [id];
    assert Chain(paths, c, now, p) && p[|p| - 1] == id;
  }

  lemma FreshSuccessor(paths: Paths, c: Cutoffs, now: Time, id: RowId, next: RowId)
    requires Fresh(paths, c, now, id) && References(paths, id, next)
    ensures Fresh(paths, c, now, next)
  {
    var p :| Chain(paths, c, now, p) && p[|p| - 1] == id;
    var q := p + [next];
    forall i | 0 <= i < |q| - 1
      ensures References(paths, q[i], q[i + 1])
    {
      if i < |p| - 1 {
        assert References(paths, p[i], p[i + 1]);
      }
    }
    assert Chain(paths, c, now, q) && q[|q| - 1] == next;
  }

  /** Everything the walk can meet. */
  ghost function Universe(paths: Paths): set<RowId> {
    paths.Keys + set id, p | id in paths && p in paths[id].refs :: RowId(id.tenant, p)
  }

  ghost predicate Closed(paths: Paths, s: set<RowId>) {
    forall id :: id in s ==> Successors(paths, id) <= s
  }

  lemma {:induction false} ChainInside(paths: Paths, c: Cutoffs, now: Time, s: set<RowId>, p: seq<RowId>, i: nat)
    requires Closed(paths, s) && Chain(paths, c, now, p) && i < |p| && p[0] in s
    ensures p[i] in s
  {
    if i > 0 {
      ChainInside(paths, c, now, s, p, i - 1);
      assert References(paths, p[i - 1], p[i - 1 + 1]);
      assert p[i] == RowId(p[i - 1].tenant, p[i].path);
    }
  }

  /** The recursive `fresh` relation of the marking query: exactly the rows reachable from a live row within its cutoff. */
  method FreshSet(paths: Paths, c: Cutoffs, now: Time) returns (kept: set<RowId>)
    ensures forall id :: id in kept <==> Fresh(paths, c, now, id)
  {
    hide IsRoot, Fresh;
    var roots := set id | id in paths && IsRoot(paths[id], c, now);
    kept := roots;
    var work := roots;
    forall id | id in roots
      ensures Fresh(paths, c, now, id)
    {
      FreshRoot(paths, c, now, id);
    }
    while work != {}
      invariant roots <= kept && work <= kept <= Universe(paths)
      invariant forall id :: id in kept ==> Fresh(paths, c, now, id)
      invariant forall id :: id in kept && id !in work ==> Successors(paths, id) <= kept
      decreases Universe(paths) - kept, work
    {
      var id :| id in work;
      var found := Successors(paths, id) - kept;
      forall next | next in found
        ensures Fresh(paths, c, now, next)
      {
        assert References(paths, id, next);
        FreshSuccessor(paths, c, now, id, next);
      }
      assert found <= Universe(paths);
      ghost var before := kept;
      kept := kept + found;
      work := work - {id} + found;
      assert found == {} ==> kept == before;
      if found != {} {
        var x :| x in found;
        assert x in Universe(paths) - before && x !in Universe(paths) - kept;
      }
    }
    forall id | Fresh(paths, c, now, id)
      ensures id in kept
    {
      FreshInside(paths, c, now, kept, id);
    }
  }

  lemma FreshInside(paths: Paths, c: Cutoffs, now: Time, s: set<RowId>, id: RowId)
    requires Closed(paths, s) && Fresh(paths, c, now, id) && forall r :: r in paths && IsRoot(paths[r], c, now) ==> r in s
    ensures id in s
  {
    var p :| Chain(paths, c, now, p) && p[|p| - 1] == id;
    ChainInside(paths, c, now, s, p, |p| - 1);
  }

  function MarkRow(row: Row, kept: bool, c: Cutoffs, now: Time): Row {
    if row.state == Live && Expired(row, c, now) && !kept then row.(state := Marked, markedAt := Some(now)) else row
  }

  /** The marking statement, given the `fresh` relation. */
  function MarkAll(paths: Paths, kept: set<RowId>, c: Cutoffs, now: Time): Paths {
    map id | id in paths :: MarkRow(paths[id], id in kept, c, now)
  }

  /** `after` is `before` with exactly the expired unreachable live rows marked. */
  ghost predicate IsMarked(before: Paths, after: Paths, c: Cutoffs, now: Time) {
    && after.Keys == before.Keys
    && forall id :: id in before ==> after[id] == MarkRow(before[id], Fresh(before, c, now, id), c, now)
  }

  /** A live row outside `substituted` survives exactly when it is within its cutoff or reachable from a live
      row that is; a substituted row always survives. */
  lemma SurvivorsExactly(before: Paths, after: Paths, c: Cutoffs, now: Time, id: RowId)
    requires IsMarked(before, after, c, now) && id in before && before[id].state == Live
    ensures before[id].tier != Substituted ==>
              (after[id].state == Live <==> !Expired(before[id], c, now) || Fresh(before, c, now, id))
    ensures before[id].tier != Substituted ==> (after[id].state == Live <==> Fresh(before, c, now, id))
    ensures before[id].tier == Substituted ==> after[id].state == Live
    ensures after[id].state == Live ==> after[id] == before[id]
    ensures after[id].state != Live ==> after[id].state == Marked && after[id].markedAt == Some(now)
  {
    if before[id].tier != Substituted && !Expired(before[id], c, now) {
      FreshRoot(before, c, now, id);
    }
  }

  /** A row that was not live is left as it was, and a marked one keeps all but its state and the time of its mark. */
  lemma MarkLeavesRest(before: Paths, after: Paths, c: Cutoffs, now: Time, id: RowId)
    requires IsMarked(before, after, c, now) && id in before
    ensures before[id].state != Live ==> after[id] == before[id]
    ensures after[id] == before[id].(state := after[id].state, markedAt := after[id].markedAt)
  {
  }

  /** Each tier goes by its own cutoff: a row on its own is marked exactly when it has gone unread for longer. */
  lemma LoneRowMarkedExactly(id: RowId, row: Row, after: Paths, c: Cutoffs, now: Time)
    requires row.state == Live && IsMarked(map[id := row], after, c, now)
    ensures after[id].state == Marked <==> match row.tier
      case Verified => now - row.lastAccess > c.verified
      case Built => now - row.lastAccess > c.built
      case Quarantined => now - row.lastAccess > c.quarantined
      case Substituted => false
  {
    var paths: Paths := map[id := row];
    if IsRoot(row, c, now) {
      FreshRoot(paths, c, now, id);
    } else {
      assert forall p :: !Chain(paths, c, now, p);
    }
  }

  /** A path recorded within its tier's cutoff is not marked, and keeps its live references from it. */
  lemma RecordedSurvivesMark(paths: Paths, id: RowId, tier: Tier, refs: seq<string>, key: Key, at: Time,
                             after: Paths, c: Cutoffs, now: Time, ref: RowId)
    requires IsMarked(Upsert(paths, id, tier, refs, key, at), after, c, now)
    requires CutoffOf(c, tier).Some? ==> at >= now - CutoffOf(c, tier).value
    ensures id in after && after[id].state == Live && after[id].tier == tier && Names(after[id], key)
    ensures (tier != Substituted && ref.tenant == id.tenant && ref.path in refs && ref in paths && paths[ref].state == Live && ref != id)
         ==> after[ref].state == Live
  {
    var before := Upsert(paths, id, tier, refs, key, at);
    SurvivorsExactly(before, after, c, now, id);
    if tier != Substituted && ref.tenant == id.tenant && ref.path in refs && ref in paths && paths[ref].state == Live && ref != id {
      ReferencesSurvive(before, after, c, now, id, ref);
    }
  }

  /** No surviving row outside `substituted` loses a reference that was live. */
  lemma ReferencesSurvive(before: Paths, after: Paths, c: Cutoffs, now: Time, id: RowId, ref: RowId)
    requires IsMarked(before, after, c, now)
    requires id in before && after[id].state == Live && before[id].tier != Substituted
    requires References(before, id, ref) && ref in before && before[ref].state == Live
    ensures after[ref].state == Live
  {
    SurvivorsExactly(before, after, c, now, id);
    FreshSuccessor(before, c, now, id, ref);
  }

  /** A substituted row is no root: what only it references can be marked from under it. */
  lemma SubstitutedRowLosesReference()
    ensures exists before: Paths, after: Paths, c: Cutoffs, id: RowId, ref: RowId ::
              && IsMarked(before, after, c, 100)
              && id in before && after[id].state == Live && before[id].tier == Substituted
              && References(before, id, ref) && ref in before && before[ref].state == Live
              && after[ref].state == Marked
  {
    var c := Cutoffs(10, 10, 10);
    var id, ref := RowId("t", "a"), RowId("t", "b");
    var top := Row(Substituted, ["b"], None, Live, 100, None);
    var low := Row(Verified, [], None, Live, 0, None);
    var before: Paths := map[id := top, ref := low];
    var after: Paths := map[id := top, ref := low.(state := Marked, markedAt := Some(100))];
    assert forall p :: !Chain(before, c, 100, p);
    assert IsMarked(before, after, c, 100);
    assert References(before, id, ref);
  }
}
