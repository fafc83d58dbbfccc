/** The frontend's pushes and materialisations as runs of the collector's machine: what `Tiers` takes as one call is,
    step by step, a write of `GcRuns`, whose order of upload and record its safety rests on. */
module PushRuns {
  import opened Numerals
  import opened Trust
  import opened GcTables
  import GcRuns
  import StorePaths
  import Tiers

  function IdOf(id: Tiers.Id): RowId {
    RowId(id.0, id.1)
  }

  predicate SameRow(a: Tiers.Row, b: Row) {
    a.tier == b.tier && b.objectKey == Some(a.key) && (a.live <==> b.state == Live)
  }

  /** Both machines see the same rows, objects and bytes. */
  ghost predicate Shows(s: Tiers.State, g: GcRuns.State) {
    && s.objects == g.objects && s.put == g.bytes
    && (forall id: Tiers.Id :: id in s.rows <==> IdOf(id) in g.paths)
    && (forall id: Tiers.Id :: id in s.rows ==> SameRow(s.rows[id], g.paths[IdOf(id)]))
  }

  /** Recording on both sides. */
  lemma RecordShows(s: Tiers.State, g: GcRuns.State, tenant: string, path: string, sigs: seq<string>, key: Key, tier: Tier,
                    refs: seq<string>, now: Time, t: GcRuns.State)
    requires Shows(s, g)
    requires t.objects == g.objects + {key} && t.bytes == g.bytes && t.paths == Upsert(g.paths, RowId(tenant, path), tier, refs, key, now)
    ensures Shows(Tiers.Record(s, tenant, path, sigs, key, tier), t)
  {
    var after := Tiers.Record(s, tenant, path, sigs, key, tier);
    forall id: Tiers.Id
      ensures id in after.rows <==> IdOf(id) in t.paths
      ensures id in after.rows ==> SameRow(after.rows[id], t.paths[IdOf(id)])
    {
      assert IdOf(id) == RowId(tenant, path) <==> id == (tenant, path);
    }
  }

  /** A pending write goes on to its end: uploaded if it is to be, then recorded or given up. */
  lemma WriteEnds(run: seq<GcRuns.State>, g: GcRuns.State, s: Tiers.State, j: nat, sigs: seq<string>, records: bool, now: Time)
      returns (longer: seq<GcRuns.State>)
    requires GcRuns.Run(run) && run[|run| - 1] == g && Shows(s, g) && j in g.jobs && g.jobs[j].stage == GcRuns.Ready
    ensures GcRuns.Run(longer) && longer[0] == run[0]
    ensures var job := g.jobs[j];
      Shows(if records then Tiers.Record(s, job.id.tenant, job.id.path, sigs, job.key, job.tier) else s, longer[|longer| - 1])
  {
    var job := g.jobs[j];
    if records {
      var t := g.(objects := g.objects + {job.key}, paths := Upsert(g.paths, job.id, job.tier, job.refs, job.key, now),
                  jobs := g.jobs - {j}, abandoned := g.abandoned - {job.key});
      longer := GcRuns.Extend(run, GcRuns.Record(j, now), t);
      RecordShows(s, g, job.id.tenant, job.id.path, sigs, job.key, job.tier, job.refs, now, t);
    } else {
      var t := g.(jobs := g.jobs - {j}, abandoned := g.abandoned + {job.key});
      longer := GcRuns.Extend(run, GcRuns.Abort(j), t);
    }
  }

  /** A push, with all that may fail in it, is a run: begun, looked up if it is verified, uploaded unless that finds the
      object, and only then recorded; and both machines see the same afterwards. */
  lemma PushIsARun(s: Tiers.State, g: GcRuns.State, p: Tiers.Push, env: Tiers.Env, refs: seq<string>, now: Time, j: nat)
      returns (run: seq<GcRuns.State>)
    requires Shows(s, g) && j !in g.jobs
    ensures GcRuns.Run(run) && run[0] == g && Shows(Tiers.Pushed(s, p, env), run[|run| - 1])
  {
    hide Tiers.NarKey, StorePaths.HashPart, Tiers.AlreadyVouched, Tiers.Signed, Tiers.Record, GcRuns.Run;
    GcRuns.OneState(g);
    run := [g];
    if Tiers.Proceeds(s, p, env) {
      var tier, key := Tiers.TierOf(p, env).value, Tiers.KeyOf(p, env);
      var job := GcRuns.Job(RowId(p.tenant, p.path), tier, refs, key, GcRuns.FirstStage(tier));
      var g1 := g.(jobs := g.jobs[j := job]);
      run := GcRuns.Extend(run, GcRuns.Begin(j, job), g1);
      if tier == Verified {
        var g2 := g1.(jobs := g1.jobs[j := job.(stage := if key in g.objects then GcRuns.Ready else GcRuns.Uploading)]);
        run := GcRuns.Extend(run, GcRuns.Check(j), g2);
        g1 := g2;
      }
      assert g1.jobs[j].stage == if Tiers.NeedsPut(s, p, env) then GcRuns.Uploading else GcRuns.Ready;
      var s1 := s;
      if Tiers.NeedsPut(s, p, env) && !env.putWorks {
        var g2 := g1.(jobs := g1.jobs - {j});
        run := GcRuns.Extend(run, GcRuns.Abort(j), g2);
      } else {
        if Tiers.NeedsPut(s, p, env) {
          var g2 := g1.(bytes := g1.bytes + {key}, jobs := g1.jobs[j := g1.jobs[j].(stage := GcRuns.Ready)]);
          run := GcRuns.Extend(run, GcRuns.Upload(j), g2);
          g1, s1 := g2, s.(put := s.put + {key});
        }
        run := WriteEnds(run, g1, s1, j, Tiers.Signed(p.sigs, tier, env.made), env.recordWorks, now);
      }
    }
  }

  /** So is a materialisation. */
  lemma MaterialiseIsARun(s: Tiers.State, g: GcRuns.State, tenant: string, hash: string, from: Tiers.Id, env: Tiers.Env, now: Time, j: nat)
      returns (run: seq<GcRuns.State>)
    requires Shows(s, g) && j !in g.jobs && Tiers.Offers(s, from, hash)
    ensures GcRuns.Run(run) && run[0] == g && Shows(Tiers.Materialised(s, tenant, from, env), run[|run| - 1])
  {
    hide StorePaths.HashPart, Tiers.Signed, Tiers.Record, GcRuns.Run;
    GcRuns.OneState(g);
    var row := g.paths[IdOf(from)];
    assert SameRow(s.rows[from], row);
    var g1 := g.(jobs := g.jobs[j := GcRuns.Job(RowId(tenant, from.1), row.tier, row.refs, row.objectKey.value, GcRuns.Ready)]);
    run := GcRuns.Extend([g], GcRuns.Materialise(j, RowId(tenant, from.1), IdOf(from)), g1);
    run := WriteEnds(run, g1, s, j, Tiers.Signed([], Verified, env.made), env.recordWorks, now);
  }
}
