/** Trust tiers of store paths: client pushes, build results and cross-tenant materialisations
    (`crates/server/src/daemon_rpc.rs`), the keys they store under (`crates/server/src/store.rs`). */
module Tiers {
  import opened Numerals
  import opened Trust
  import opened Strings
  import StorePaths
  import Narinfo

  type Tenant = string
  type Path = string
  type Key = string
  type Sig = string

  /** `live` is false for a row the collector has marked or is purging; the views skip such rows. */
  datatype Row = Row(tier: Tier, key: Key, sigs: seq<Sig>, live: bool)

  type Id = (Tenant, Path)

  type Rows = map<Id, Row>

  /** `put` holds the keys whose bytes have been uploaded, by the frontend or by a worker. */
  datatype State = State(rows: Rows, objects: set<Key>, put: set<Key>)

  // ----- object keys -----

  function Suffix(hash: string): string {
    hash + ".nar.zst"
  }

  /** `nar_key`. */
  function NarKey(tenant: Tenant, tier: Tier, hash: string): Key {
    match tier
    case Verified => "nar" + "/" + Suffix(hash)
    case Built => tenant + "/" + ("nar" + "/" + Suffix(hash))
    case Quarantined => tenant + "/" + ("untrusted" + "/" + ("nar" + "/" + Suffix(hash)))
    case Substituted => tenant + "/" + ("untrusted-substituted" + "/" + ("nar" + "/" + Suffix(hash)))
  }

  // ----- operations -----

  /** `sign_if_vouchable`; `made` is what the tenant's signer answers, if there is one and it does. */
  function Signed(sigs: seq<Sig>, tier: Tier, made: Option<Sig>): seq<Sig> {
    if !Vouchable(tier) || made.None? || made.value in sigs then sigs else sigs + [made.value]
  }

  /** `record_path`, when the statement succeeds. */
  function Record(s: State, tenant: Tenant, path: Path, sigs: seq<Sig>, key: Key, tier: Tier): State {
    State(s.rows[(tenant, path) := Row(tier, key, sigs, true)], s.objects + {key}, s.put)
  }

  /** What the client attached, and how the check against the bytes came out. */
  datatype Address = Absent | Passed | Failed

  /** The surroundings of a call that the frontend does not decide. */
  datatype Env = Env(rejects: bool, lookupFails: bool, uploader: bool, putWorks: bool, recordWorks: bool, made: Option<Sig>)

  datatype Push = Push(tenant: Tenant, path: Path, sigs: seq<Sig>, address: Address)

  datatype Answer = Refused | Kept(key: Key) | Stored(key: Key)

  function TierOf(p: Push, env: Env): Option<Tier> {
    match p.address
    case Passed => Some(Verified)
    case Failed => None
    case Absent => if env.rejects then None else Some(Quarantined)
  }

  /** `store.tier`: a live row's tier, nothing if the lookup fails. */
  function TierLookup(s: State, tenant: Tenant, path: Path, fails: bool): Option<Tier> {
    if !fails && (tenant, path) in s.rows && s.rows[(tenant, path)].live then Some(s.rows[(tenant, path)].tier) else None
  }

  predicate AlreadyVouched(s: State, p: Push, env: Env) {
    TierLookup(s, p.tenant, p.path, env.lookupFails).Some? && Vouchable(TierLookup(s, p.tenant, p.path, env.lookupFails).value)
  }

  /** The push is not refused or answered from what is there: it gets to the upload. */
  predicate Proceeds(s: State, p: Push, env: Env) {
    && TierOf(p, env).Some?
    && (AlreadyVouched(s, p, env) ==> TierOf(p, env).value == Verified)
    && env.uploader && StorePaths.HashPart(p.path).Some?
  }

  /** The key it goes under. */
  function KeyOf(p: Push, env: Env): Key
    requires TierOf(p, env).Some? && StorePaths.HashPart(p.path).Some?
  {
    NarKey(p.tenant, TierOf(p, env).value, StorePaths.HashPart(p.path).value)
  }

  /** Only a verified push of a known object skips the upload. */
  predicate NeedsPut(s: State, p: Push, env: Env)
    requires TierOf(p, env).Some? && StorePaths.HashPart(p.path).Some?
  {
    !(TierOf(p, env).value == Verified && KeyOf(p, env) in s.objects)
  }

  /** The upload, if one is needed, succeeds. */
  predicate Uploads(s: State, p: Push, env: Env) {
    Proceeds(s, p, env) && (NeedsPut(s, p, env) ==> env.putWorks)
  }

  /** The push is written as a row of its tier. */
  predicate Lands(s: State, p: Push, env: Env) {
    Uploads(s, p, env) && env.recordWorks
  }

  /** The upload comes first; a row that cannot be recorded leaves the bytes behind. */
  function Pushed(s: State, p: Push, env: Env): State {
    if !Uploads(s, p, env) then s else
      var t := if NeedsPut(s, p, env) then s.(put := s.put + {KeyOf(p, env)}) else s;
      if !env.recordWorks then t else
        Record(t, p.tenant, p.path, Signed(p.sigs, TierOf(p, env).value, env.made), KeyOf(p, env), TierOf(p, env).value)
  }

  /** An output a worker reports. */
  datatype Output = Output(path: Path, key: Key, made: Option<Sig>, recordWorks: bool)

  function BuiltOne(s: State, tenant: Tenant, o: Output): State {
    if o.recordWorks then Record(s, tenant, o.path, Signed([], Built, o.made), o.key, Built) else s
  }

  function BuiltAll(s: State, tenant: Tenant, outputs: seq<Output>): State {
    if outputs == [] then s else BuiltOne(BuiltAll(s, tenant, outputs[..|outputs| - 1]), tenant, outputs[|outputs| - 1])
  }

  predicate AllExpected(outputs: seq<Output>, expected: set<Path>) {
    forall n :: 0 <= n < |outputs| ==> outputs[n].path in expected
  }

  /** `record_outputs`: all or nothing. */
  function BuildRecorded(s: State, tenant: Tenant, outputs: seq<Output>, expected: set<Path>): State {
    if AllExpected(outputs, expected) then BuiltAll(s, tenant, outputs) else s
  }

  /** A live verified row of any tenant with that hash part and an object behind it. */
  predicate Offers(s: State, id: Id, hash: string) {
    && id in s.rows && s.rows[id].live && s.rows[id].tier == Verified && StorePaths.HashPart(id.1) == Some(hash)
    && s.rows[id].key in s.objects
  }

  predicate Owns(s: State, tenant: Tenant, hash: string) {
    exists id: Id :: id in s.rows && id.0 == tenant && s.rows[id].live && StorePaths.HashPart(id.1) == Some(hash)
  }

  /** `resolve_verified` having found the row `from`. */
  function Materialised(s: State, tenant: Tenant, from: Id, env: Env): State
    requires from in s.rows
  {
    if env.recordWorks then Record(s, tenant, from.1, Signed([], Verified, env.made), s.rows[from].key, Verified) else s
  }

  // ----- runs -----

  datatype Event =
    | ClientPush(p: Push, env: Env)
    | BuildResult(tenant: Tenant, outputs: seq<Output>, expected: set<Path>)
    | Materialise(tenant: Tenant, hash: string, from: Id, env: Env)
    | WorkerPut(key: Key)
    | AddSignatures(tenant: Tenant, path: Path, sigs: seq<Sig>)
    | SetLive(id: Id, live: bool)
    | Reap(id: Id)

  ghost predicate Next(s: State, e: Event, t: State) {
    match e
    case ClientPush(p, env) => t == Pushed(s, p, env)
    case BuildResult(tenant, outputs, expected) => t == BuildRecorded(s, tenant, outputs, expected)
    case Materialise(tenant, hash, from, env) =>
      !Owns(s, tenant, hash) && Offers(s, from, hash) && t == Materialised(s, tenant, from, env)
    case WorkerPut(key) => t == s.(put := s.put + {key})
    case AddSignatures(tenant, path, sigs) =>
      if (tenant, path) in s.rows then
        && (tenant, path) in t.rows
        && t == s.(rows := s.rows[(tenant, path) := s.rows[(tenant, path)].(sigs := t.rows[(tenant, path)].sigs)])
        && (forall g :: g in t.rows[(tenant, path)].sigs <==> g in s.rows[(tenant, path)].sigs || g in sigs)
      else t == s
    case SetLive(id, live) => id in s.rows && t == s.(rows := s.rows[id := s.rows[id].(live := live)])
    case Reap(id) => id in s.rows && !s.rows[id].live && t == s.(rows := s.rows - {id})
  }

  ghost predicate Run(states: seq<State>, events: seq<Event>) {
    && |states| == |events| + 1
    && forall i :: 0 <= i < |events| ==> Next(states[i], events[i], states[i + 1])
  }

  // ----- vouchable stays vouchable -----

  predicate HeldVouchable(s: State, id: Id) {
    id in s.rows && Vouchable(s.rows[id].tier)
  }

  /** The step takes a vouchable tier away from `id`: the collector deletes it, or an unverifiable push lands on it
      while the row is not live or its tier cannot be read. */
  predicate Demotes(s: State, e: Event, id: Id) {
    match e
    case Reap(i) => i == id
    case ClientPush(p, env) =>
      && (p.tenant, p.path) == id && p.address == Absent && !env.rejects
      && !AlreadyVouched(s, p, env) && Lands(s, p, env)
    case _ => false
  }

  lemma {:induction false} BuiltAllEffect(s: State, tenant: Tenant, outputs: seq<Output>)
    ensures forall id: Id :: id.0 != tenant ==> (id in BuiltAll(s, tenant, outputs).rows <==> id in s.rows)
    ensures forall id: Id :: id.0 != tenant && id in s.rows ==> BuiltAll(s, tenant, outputs).rows[id] == s.rows[id]
    ensures forall id: Id :: HeldVouchable(s, id) ==> HeldVouchable(BuiltAll(s, tenant, outputs), id)
    ensures forall id: Id :: id in BuiltAll(s, tenant, outputs).rows ==>
      BuiltAll(s, tenant, outputs).rows[id].tier == Built || (id in s.rows && BuiltAll(s, tenant, outputs).rows[id] == s.rows[id])
  {
    if outputs != [] {
      BuiltAllEffect(s, tenant, outputs[..|outputs| - 1]);
    }
  }

  /** A row held at a vouchable tier loses it in a step exactly when the step demotes it. */
  lemma DemotedExactly(s: State, e: Event, t: State, id: Id)
    requires Next(s, e, t) && HeldVouchable(s, id)
    ensures HeldVouchable(t, id) <==> !Demotes(s, e, id)
  {
    if e.BuildResult? {
      BuiltAllEffect(s, e.tenant, e.outputs);
    }
  }

  /** While a row is live and its tier can be read, no push demotes it. */
  lemma LiveIsNotDemoted(s: State, e: Event, t: State, id: Id)
    requires Next(s, e, t) && HeldVouchable(s, id) && s.rows[id].live
    requires e.ClientPush? ==> !e.env.lookupFails
    ensures HeldVouchable(t, id)
  {
    DemotedExactly(s, e, t, id);
  }

  lemma {:induction false} VouchableStays(states: seq<State>, events: seq<Event>, m: nat, n: nat, id: Id)
    requires Run(states, events) && m <= n < |states| && HeldVouchable(states[m], id)
    requires forall i :: m <= i < n ==> !Demotes(states[i], events[i], id)
    ensures HeldVouchable(states[n], id)
    decreases n
  {
    hide Demotes, HeldVouchable, Next;
    if m < n {
      VouchableStays(states, events, m, n - 1, id);
      assert Next(states[n - 1], events[n - 1], states[n - 1 + 1]);
      assert !Demotes(states[n - 1], events[n - 1], id);
      DemotedExactly(states[n - 1], events[n - 1], states[n], id);
    }
  }

  // ----- rows have bytes behind them -----

  /** Every row names a known object, and every known object has been uploaded. */
  ghost predicate Backed(s: State) {
    s.objects <= s.put && forall id: Id :: id in s.rows ==> s.rows[id].key in s.objects
  }

  /** A recorded build result names an object nobody has put. */
  ghost predicate NamesMissing(s: State, e: Event) {
    && e.BuildResult? && AllExpected(e.outputs, e.expected)
    && exists n :: 0 <= n < |e.outputs| && e.outputs[n].recordWorks && e.outputs[n].key !in s.put
  }

  lemma {:induction false} BuiltAllObjects(s: State, tenant: Tenant, outputs: seq<Output>)
    ensures BuiltAll(s, tenant, outputs).put == s.put && s.objects <= BuiltAll(s, tenant, outputs).objects
    ensures forall k :: k in BuiltAll(s, tenant, outputs).objects ==>
      k in s.objects || exists n :: 0 <= n < |outputs| && outputs[n].recordWorks && outputs[n].key == k
    ensures forall n :: 0 <= n < |outputs| && outputs[n].recordWorks ==> outputs[n].key in BuiltAll(s, tenant, outputs).objects
    ensures (forall id: Id :: id in s.rows ==> s.rows[id].key in s.objects) ==>
      forall id: Id :: id in BuiltAll(s, tenant, outputs).rows ==> BuiltAll(s, tenant, outputs).rows[id].key in BuiltAll(s, tenant, outputs).objects
  {
    if outputs != [] {
      var init := outputs[..|outputs| - 1];
      BuiltAllObjects(s, tenant, init);
      assert forall n :: 0 <= n < |init| ==> init[n] == outputs[n];
    }
  }

  /** A step keeps bytes behind every row exactly when it is no build result that names an object nobody has put; a push
      always puts what it records, or finds it. */
  lemma BackedExactly(s: State, e: Event, t: State)
    requires Backed(s) && Next(s, e, t)
    ensures Backed(t) <==> !NamesMissing(s, e)
  {
    hide NarKey, StorePaths.HashPart, Signed, BuiltAll, AlreadyVouched, Owns;
    if e.BuildResult? {
      BuiltAllObjects(s, e.tenant, e.outputs);
    }
  }

  /** Over every run. */
  lemma {:induction false} BackedRunsExactly(states: seq<State>, events: seq<Event>, n: nat)
    requires Run(states, events) && Backed(states[0]) && n < |states|
    ensures (forall i :: 0 <= i <= n ==> Backed(states[i])) <==> (forall i :: 0 <= i < n ==> !NamesMissing(states[i], events[i]))
  {
    hide Next, Backed, NamesMissing;
    if n > 0 {
      BackedRunsExactly(states, events, n - 1);
      assert Next(states[n - 1], events[n - 1], states[n - 1 + 1]);
      if Backed(states[n - 1]) {
        BackedExactly(states[n - 1], events[n - 1], states[n]);
      }
    }
  }

  // ----- tenants that reject unverifiable pushes -----

  ghost predicate AllVouchable(s: State, tenant: Tenant) {
    forall id: Id :: id in s.rows && id.0 == tenant ==> Vouchable(s.rows[id].tier)
  }

  predicate RejectsFor(e: Event, tenant: Tenant) {
    e.ClientPush? && e.p.tenant == tenant ==> e.env.rejects
  }

  /** A tenant that rejects unverifiable pushes never holds an unvouchable row, in any run, whatever other tenants do;
      and a push whose address does not check out changes nothing for anyone. */
  lemma {:induction false} RejectingTenantIsClean(states: seq<State>, events: seq<Event>, tenant: Tenant, n: nat)
    requires Run(states, events) && n < |states| && AllVouchable(states[0], tenant)
    requires forall i :: 0 <= i < n ==> RejectsFor(events[i], tenant)
    ensures AllVouchable(states[n], tenant)
    ensures forall i :: 0 <= i < n && events[i].ClientPush? && events[i].p.address == Failed ==> states[i + 1] == states[i]
  {
    hide AllVouchable, RejectsFor;
    if n > 0 {
      RejectingTenantIsClean(states, events, tenant, n - 1);
      assert Next(states[n - 1], events[n - 1], states[n - 1 + 1]);
      assert RejectsFor(events[n - 1], tenant);
      RejectingStep(states[n - 1], events[n - 1], states[n], tenant);
    }
  }

  lemma RejectingStep(s: State, e: Event, t: State, tenant: Tenant)
    requires Next(s, e, t) && AllVouchable(s, tenant) && RejectsFor(e, tenant)
    ensures AllVouchable(t, tenant)
  {
    hide NarKey, StorePaths.HashPart, Signed, BuiltAll, NeedsPut, AlreadyVouched, Owns;
    if e.BuildResult? {
      BuiltAllEffect(s, e.tenant, e.outputs);
    } else {
      assert forall id: Id :: id in t.rows ==>
        Vouchable(t.rows[id].tier) || (id in s.rows && t.rows[id].tier == s.rows[id].tier) || (e.ClientPush? && id.0 != tenant);
    }
  }

  // ----- tenants are apart -----

  /** The tenant a step acts for. */
  function Actor(e: Event): Tenant {
    match e
    case ClientPush(p, _) => p.tenant
    case BuildResult(tenant, _, _) => tenant
    case Materialise(tenant, _, _, _) => tenant
    case WorkerPut(_) => ""
    case AddSignatures(tenant, _, _) => tenant
    case SetLive(id, _) => id.0
    case Reap(id) => id.0
  }

  lemma OtherTenantsUntouched(s: State, e: Event, t: State, id: Id)
    requires Next(s, e, t) && id.0 != Actor(e)
    ensures id in t.rows <==> id in s.rows
    ensures id in s.rows ==> t.rows[id] == s.rows[id]
  {
    if e.BuildResult? {
      BuiltAllEffect(s, e.tenant, e.outputs);
    }
  }

  // ----- what is signed -----

  /** The signatures a client hands in for `id`. */
  function ClientSigs(e: Event, id: Id): seq<Sig> {
    match e
    case ClientPush(p, _) => if (p.tenant, p.path) == id then p.sigs else []
    case AddSignatures(tenant, path, sigs) => if (tenant, path) == id then sigs else []
    case _ => []
  }

  /** The frontend signs only rows it records at a vouchable tier: a signature that is new on a row and did not come
      from the client is on a vouchable row. */
  lemma OnlyVouchableRowsAreSigned(s: State, e: Event, t: State, id: Id, g: Sig)
    requires Next(s, e, t) && id in t.rows && g in t.rows[id].sigs && g !in ClientSigs(e, id)
    requires id in s.rows ==> g !in s.rows[id].sigs
    ensures Vouchable(t.rows[id].tier)
  {
    if e.BuildResult? {
      BuiltAllEffect(s, e.tenant, e.outputs);
    }
  }

  /** A push that lands unverified carries the client's signatures and no other; a verified one gains at most the
      tenant's own. */
  lemma PushSignatures(s: State, p: Push, env: Env)
    requires Lands(s, p, env)
    ensures Pushed(s, p, env).rows[(p.tenant, p.path)].tier == Verified <==> p.address == Passed
    ensures !Vouchable(Pushed(s, p, env).rows[(p.tenant, p.path)].tier) ==> Pushed(s, p, env).rows[(p.tenant, p.path)].sigs == p.sigs
    ensures forall g :: g in Pushed(s, p, env).rows[(p.tenant, p.path)].sigs ==> g in p.sigs || env.made == Some(g)
    ensures p.address == Passed && env.made.Some? ==> env.made.value in Pushed(s, p, env).rows[(p.tenant, p.path)].sigs
    ensures p.sigs <= Pushed(s, p, env).rows[(p.tenant, p.path)].sigs
    ensures |Pushed(s, p, env).rows[(p.tenant, p.path)].sigs|
         == |p.sigs| + if p.address == Passed && env.made.Some? && env.made.value !in p.sigs then 1 else 0
  {
  }

  /** A materialised row keeps the object and the path and none of the signatures of the row it came from. */
  lemma MaterialisedSignatures(s: State, tenant: Tenant, hash: string, from: Id, env: Env)
    requires Offers(s, from, hash) && !Owns(s, tenant, hash) && env.recordWorks
    ensures Offers(Materialised(s, tenant, from, env), (tenant, from.1), hash) && from.0 != tenant
    ensures Materialised(s, tenant, from, env).rows[(tenant, from.1)].key == s.rows[from].key
    ensures Materialised(s, tenant, from, env).rows[(tenant, from.1)].sigs == if env.made.Some? then [env.made.value] else []
  {
  }

  // ----- shared objects -----

  /** The first segment of a key. */
  function Top(tenant: Tenant, tier: Tier): string {
    if tier.Verified? then "nar" else tenant
  }

  /** What follows the first slash. */
  function Below(tier: Tier, hash: string): string {
    match tier
    case Verified => Suffix(hash)
    case Built => "nar" + "/" + Suffix(hash)
    case Quarantined => "untrusted" + "/" + ("nar" + "/" + Suffix(hash))
    case Substituted => "untrusted-substituted" + "/" + ("nar" + "/" + Suffix(hash))
  }

  /** Its first segment, for a key that has more than one. */
  function Folder(tier: Tier): string {
    match tier
    case Verified => ""
    case Built => "nar"
    case Quarantined => "untrusted"
    case Substituted => "untrusted-substituted"
  }

  function File(tier: Tier, hash: string): string {
    if tier == Built then Suffix(hash) else "nar" + "/" + Suffix(hash)
  }

  lemma BelowShape(tier: Tier, hash: string)
    requires SlashFree(hash)
    ensures SlashFree(Below(tier, hash)) <==> tier == Verified
    ensures tier != Verified ==> Below(tier, hash) == Folder(tier) + "/" + File(tier, hash)
  {
    if tier != Verified {
      assert (Folder(tier) + "/" + File(tier, hash))[|Folder(tier)|] == '/';
    }
  }

  lemma SuffixInjective(a: string, h1: string, b: string, h2: string)
    requires a + Suffix(h1) == b + Suffix(h2) && |a| == |b|
    ensures h1 == h2
  {
    var s, n := a + Suffix(h1), |a| + |h1|;
    assert h1 == s[|a|..n] && h2 == (b + Suffix(h2))[|b|..|b| + |h2|];
  }

  lemma BelowInjective(t1: Tier, h1: string, t2: Tier, h2: string)
    requires SlashFree(h1) && SlashFree(h2) && Below(t1, h1) == Below(t2, h2)
    ensures t1 == t2 && h1 == h2
  {
    hide Suffix;
    BelowShape(t1, h1);
    BelowShape(t2, h2);
    if t1 == Verified {
      assert "" + Suffix(h1) == Suffix(h1) && "" + Suffix(h2) == Suffix(h2);
      SuffixInjective("", h1, "", h2);
    } else {
      FirstSlash(Folder(t1), File(t1, h1), Folder(t2), File(t2, h2));
      assert t1 == t2;
      if t1 == Built {
        assert "" + Suffix(h1) == Suffix(h1) && "" + Suffix(h2) == Suffix(h2);
        SuffixInjective("", h1, "", h2);
      } else {
        SuffixInjective("nar" + "/", h1, "nar" + "/", h2);
      }
    }
  }

  lemma NarKeyShape(tenant: Tenant, tier: Tier, hash: string)
    ensures NarKey(tenant, tier, hash) == Top(tenant, tier) + "/" + Below(tier, hash)
  {
    hide Suffix;
  }

  lemma FolderText(tenant: Tenant, folder: string, f: string)
    ensures tenant + "/" + (folder + "/" + ("nar" + "/" + f)) == tenant + "/" + folder + "/nar/" + f
  {
    assert "/" + ("nar" + "/" + f) == "/nar/" + f;
    assert folder + "/" + ("nar" + "/" + f) == folder + ("/" + ("nar" + "/" + f));
    assert tenant + "/" + (folder + ("/nar/" + f)) == tenant + "/" + folder + ("/nar/" + f);
  }

  lemma BuiltText(tenant: Tenant, f: string)
    ensures tenant + "/" + ("nar" + "/" + f) == tenant + "/nar/" + f
  {
    assert "nar" + "/" + f == "nar/" + f;
  }

  /** The keys in full. */
  lemma NarKeyText(tenant: Tenant, hash: string, tier: Tier)
    ensures NarKey(tenant, tier, hash) == match tier
      case Verified => "nar" + "/" + (hash + ".nar.zst")
      case Built => tenant + "/nar/" + (hash + ".nar.zst")
      case Quarantined => tenant + "/" + "untrusted" + "/nar/" + (hash + ".nar.zst")
      case Substituted => tenant + "/" + "untrusted-substituted" + "/nar/" + (hash + ".nar.zst")
  {
    var f := hash + ".nar.zst";
    assert Suffix(hash) == f;
    match tier
    case Verified =>
    case Built => BuiltText(tenant, f);
    case Quarantined => FolderText(tenant, "untrusted", f);
    case Substituted => FolderText(tenant, "untrusted-substituted", f);
  }

  lemma KeyFront(tenant: Tenant, hash: string, tier: Tier) returns (front: string)
    ensures NarKey(tenant, tier, hash) == front + "/" + Suffix(hash)
  {
    var f := Suffix(hash);
    hide Suffix;
    match tier
    case Verified => front := "nar";
    case Built =>
      front := tenant + "/" + "nar";
      assert tenant + "/" + ("nar" + "/" + f) == front + "/" + f;
    case Quarantined =>
      front := tenant + "/" + ("untrusted" + "/" + "nar");
      assert "untrusted" + "/" + ("nar" + "/" + f) == ("untrusted" + "/" + "nar") + ("/" + f);
    case Substituted =>
      front := tenant + "/" + ("untrusted-substituted" + "/" + "nar");
      assert "untrusted-substituted" + "/" + ("nar" + "/" + f) == ("untrusted-substituted" + "/" + "nar") + ("/" + f);
  }

  /** Whatever the tier, a key ends in the file that a narinfo points at, relative to a cache's `nar/`. */
  lemma KeyEnds(tenant: Tenant, hash: string, tier: Tier)
    requires SlashFree(hash)
    ensures AfterLast(NarKey(tenant, tier, hash), '/') == hash + ".nar.zst"
  {
    var f := Suffix(hash);
    var front := KeyFront(tenant, hash, tier);
    SuffixSlashFree(hash);
    hide AfterLast, NarKey;
    assert AfterLast("/", '/') == "" by { assert '/' !in AfterLast("/", '/'); }
    AfterLastOf(front, "/", f, '/');
  }

  /** Whatever the tier, a rendered narinfo points at the one file of its hash part. */
  lemma UrlOfKey(i: Narinfo.Info, tenant: Tenant, hash: string, tier: Tier)
    requires SlashFree(hash) && i.key == NarKey(tenant, tier, hash)
    ensures Narinfo.Url(i) == "nar/" + (hash + ".nar.zst")
  {
    KeyEnds(tenant, hash, tier);
    hide AfterLast, NarKey;
  }

  lemma SuffixSlashFree(hash: string)
    requires SlashFree(hash)
    ensures SlashFree(Suffix(hash))
  {
  }

  /** Two keys are equal exactly when they are for one hash and tier and, unless that is `Verified`, for one tenant. */
  lemma NarKeysEqualExactly(a: Tenant, t1: Tier, h1: string, b: Tenant, t2: Tier, h2: string)
    requires SlashFree(a) && SlashFree(b) && SlashFree(h1) && SlashFree(h2)
    ensures NarKey(a, t1, h1) == NarKey(b, t2, h2) <==> t1 == t2 && h1 == h2 && (t1 == Verified || a == b)
  {
    hide Below, NarKey;
    NarKeyShape(a, t1, h1);
    NarKeyShape(b, t2, h2);
    if NarKey(a, t1, h1) == NarKey(b, t2, h2) {
      FirstSlash(Top(a, t1), Below(t1, h1), Top(b, t2), Below(t2, h2));
      BelowInjective(t1, h1, t2, h2);
    }
  }

  /** Every row is stored under the key its own tenant, tier and path give. */
  ghost predicate KeysInPlace(s: State) {
    forall id: Id :: id in s.rows ==> InPlace(id, s.rows[id])
  }

  predicate InPlace(id: Id, row: Row) {
    StorePaths.HashPart(id.1).Some? && row.key == NarKey(id.0, row.tier, StorePaths.HashPart(id.1).value)
  }

  predicate HonestKey(tenant: Tenant, o: Output) {
    StorePaths.HashPart(o.path).Some? && o.key == NarKey(tenant, Built, StorePaths.HashPart(o.path).value)
  }

  /** Output `n` is recorded and no later one of the batch replaces it. */
  predicate LastWrites(outputs: seq<Output>, n: nat) {
    && n < |outputs| && outputs[n].recordWorks
    && forall m :: n < m < |outputs| && outputs[m].recordWorks ==> outputs[m].path != outputs[n].path
  }

  /** Every output the batch last writes carries the key it belongs under. */
  ghost predicate HonestWrites(tenant: Tenant, outputs: seq<Output>) {
    forall n: nat :: LastWrites(outputs, n) ==> HonestKey(tenant, outputs[n])
  }

  ghost predicate HonestKeys(e: Event) {
    e.BuildResult? && AllExpected(e.outputs, e.expected) ==> HonestWrites(e.tenant, e.outputs)
  }

  lemma LastWritesInit(outputs: seq<Output>, n: nat)
    requires n + 1 < |outputs|
    ensures LastWrites(outputs, n)
       <==> LastWrites(outputs[..|outputs| - 1], n)
            && !(outputs[|outputs| - 1].recordWorks && outputs[|outputs| - 1].path == outputs[n].path)
  {
    var init := outputs[..|outputs| - 1];
    assert forall m :: 0 <= m < |init| ==> init[m] == outputs[m];
  }

  lemma {:induction false} WrittenRow(s: State, tenant: Tenant, outputs: seq<Output>, n: nat)
    requires LastWrites(outputs, n)
    ensures (tenant, outputs[n].path) in BuiltAll(s, tenant, outputs).rows
    ensures BuiltAll(s, tenant, outputs).rows[(tenant, outputs[n].path)]
         == Row(Built, outputs[n].key, Signed([], Built, outputs[n].made), true)
    decreases |outputs|
  {
    if n + 1 < |outputs| {
      LastWritesInit(outputs, n);
      WrittenRow(s, tenant, outputs[..|outputs| - 1], n);
    }
  }

  /** A row after the batch is one it last wrote, or as it was. */
  lemma {:induction false} RowSource(s: State, tenant: Tenant, outputs: seq<Output>, id: Id)
    requires id in BuiltAll(s, tenant, outputs).rows
    ensures (id in s.rows && BuiltAll(s, tenant, outputs).rows[id] == s.rows[id])
         || exists n: nat :: LastWrites(outputs, n) && id == (tenant, outputs[n].path)
    decreases |outputs|
  {
    if outputs != [] {
      var last, init := |outputs| - 1, outputs[..|outputs| - 1];
      if outputs[last].recordWorks && id == (tenant, outputs[last].path) {
        assert LastWrites(outputs, last);
      } else {
        RowSource(s, tenant, init, id);
        if n: nat :| LastWrites(init, n) && id == (tenant, init[n].path) {
          LastWritesInit(outputs, n);
          assert LastWrites(outputs, n);
        }
      }
    }
  }

  /** The frontend stores the key a worker reports: a batch leaves every row under its own key exactly when each output
      it last writes carries its own. */
  lemma BuiltAllInPlaceExactly(s: State, tenant: Tenant, outputs: seq<Output>)
    requires KeysInPlace(s)
    ensures KeysInPlace(BuiltAll(s, tenant, outputs)) <==> HonestWrites(tenant, outputs)
  {
    hide NarKey, StorePaths.HashPart, BuiltAll;
    var t := BuiltAll(s, tenant, outputs);
    if KeysInPlace(t) {
      forall n: nat | LastWrites(outputs, n)
        ensures HonestKey(tenant, outputs[n])
      {
        WrittenRow(s, tenant, outputs, n);
        assert InPlace((tenant, outputs[n].path), t.rows[(tenant, outputs[n].path)]);
      }
    }
    if HonestWrites(tenant, outputs) {
      forall id: Id | id in t.rows
        ensures InPlace(id, t.rows[id])
      {
        RowSource(s, tenant, outputs, id);
        if n: nat :| LastWrites(outputs, n) && id == (tenant, outputs[n].path) {
          WrittenRow(s, tenant, outputs, n);
        }
      }
    }
  }

  lemma PushInPlace(s: State, p: Push, env: Env)
    requires KeysInPlace(s)
    ensures KeysInPlace(Pushed(s, p, env))
  {
    hide NarKey, StorePaths.HashPart, Signed, NeedsPut, AlreadyVouched, TierOf;
  }

  lemma MaterialisedInPlace(s: State, tenant: Tenant, hash: string, from: Id, env: Env)
    requires KeysInPlace(s) && Offers(s, from, hash)
    ensures KeysInPlace(Materialised(s, tenant, from, env))
  {
    hide StorePaths.HashPart, Signed;
    assert InPlace(from, s.rows[from]);
    assert forall h :: NarKey(from.0, Verified, h) == NarKey(tenant, Verified, h);
  }

  lemma NextKeepsKeysExactly(s: State, e: Event, t: State)
    requires KeysInPlace(s) && Next(s, e, t)
    ensures KeysInPlace(t) <==> HonestKeys(e)
  {
    hide NarKey, StorePaths.HashPart, BuiltAll, Pushed, Materialised, Offers, Owns, HonestWrites;
    match e
    case ClientPush(p, env) => PushInPlace(s, p, env);
    case BuildResult(tenant, outputs, _) => BuiltAllInPlaceExactly(s, tenant, outputs);
    case Materialise(tenant, hash, from, env) => MaterialisedInPlace(s, tenant, hash, from, env);
    case _ =>
  }

  /** Over every run: all rows stay under their own keys if and only if every recorded build result reports such keys. */
  lemma {:induction false} KeysInPlaceExactly(states: seq<State>, events: seq<Event>, n: nat)
    requires Run(states, events) && KeysInPlace(states[0]) && n < |states|
    ensures (forall i :: 0 <= i <= n ==> KeysInPlace(states[i])) <==> (forall i :: 0 <= i < n ==> HonestKeys(events[i]))
  {
    hide Next, HonestKeys, KeysInPlace;
    if n > 0 {
      KeysInPlaceExactly(states, events, n - 1);
      assert Next(states[n - 1], events[n - 1], states[n - 1 + 1]);
      if KeysInPlace(states[n - 1]) {
        NextKeepsKeysExactly(states[n - 1], events[n - 1], states[n]);
      }
    }
  }

  predicate MayShare(x: Id, a: Row, y: Id, b: Row) {
    StorePaths.HashPart(x.1) == StorePaths.HashPart(y.1) && a.tier == b.tier && (a.tier == Verified || x.0 == y.0)
  }

  /** Two rows that are each under their own key name one object exactly when they are of one hash part and tier and,
      unless that tier is `Verified`, of one tenant. */
  lemma SharedExactly(x: Id, a: Row, y: Id, b: Row)
    requires InPlace(x, a) && InPlace(y, b) && SlashFree(x.0) && SlashFree(y.0)
    ensures a.key == b.key <==> MayShare(x, a, y, b)
  {
    hide NarKey, StorePaths.HashPart;
    NarKeysEqualExactly(x.0, a.tier, StorePaths.HashPart(x.1).value, y.0, b.tier, StorePaths.HashPart(y.1).value);
  }

  // ----- what tenants share -----

  /** Only rows of build results can be under another key than their own. */
  ghost predicate OthersInPlace(s: State) {
    forall id: Id :: id in s.rows && s.rows[id].tier != Built ==> InPlace(id, s.rows[id])
  }

  /** Whatever workers report, every step keeps that. */
  lemma NextKeepsOthers(s: State, e: Event, t: State)
    requires OthersInPlace(s) && Next(s, e, t)
    ensures OthersInPlace(t)
  {
    hide NarKey, StorePaths.HashPart, BuiltAll, Owns, Signed, NeedsPut, AlreadyVouched, Pushed, Materialised, Offers, InPlace;
    match e
    case ClientPush(p, env) => PushKeepsOthers(s, p, env);
    case BuildResult(tenant, outputs, _) => BuiltAllEffect(s, tenant, outputs);
    case Materialise(tenant, hash, from, env) => MaterialiseKeepsOthers(s, tenant, hash, from, env);
    case _ => QuietKeepsOthers(s, e, t);
  }

  lemma PushKeepsOthers(s: State, p: Push, env: Env)
    requires OthersInPlace(s)
    ensures OthersInPlace(Pushed(s, p, env))
  {
    hide NarKey, StorePaths.HashPart, Signed, NeedsPut, AlreadyVouched, TierOf;
  }

  lemma MaterialiseKeepsOthers(s: State, tenant: Tenant, hash: string, from: Id, env: Env)
    requires OthersInPlace(s) && Offers(s, from, hash)
    ensures OthersInPlace(Materialised(s, tenant, from, env))
  {
    hide StorePaths.HashPart, Signed;
    assert InPlace(from, s.rows[from]);
    assert forall h :: NarKey(from.0, Verified, h) == NarKey(tenant, Verified, h);
  }

  lemma QuietKeepsOthers(s: State, e: Event, t: State)
    requires OthersInPlace(s) && Next(s, e, t) && (e.WorkerPut? || e.AddSignatures? || e.SetLive? || e.Reap?)
    ensures OthersInPlace(t)
  {
    hide NarKey, StorePaths.HashPart;
  }

  /** Two tenants name one object, and not both rows are verified. */
  predicate Improper(s: State, x: Id, y: Id) {
    && x in s.rows && y in s.rows && x.0 != y.0 && s.rows[x].key == s.rows[y].key
    && !(s.rows[x].tier == Verified && s.rows[y].tier == Verified)
  }

  /** Tenants share verified content only. */
  ghost predicate SharesVerifiedOnly(s: State) {
    forall x: Id, y: Id :: !Improper(s, x, y)
  }

  /** Another tenant already names the object, and not both would be verified. */
  ghost predicate Collides(s: State, tenant: Tenant, key: Key, tier: Tier) {
    exists y: Id :: y in s.rows && y.0 != tenant && s.rows[y].key == key && !(tier == Verified && s.rows[y].tier == Verified)
  }

  /** The step records a row under a key that collides. */
  ghost predicate Intrudes(s: State, e: Event) {
    match e
    case ClientPush(p, env) =>
      && Lands(s, p, env)
      && Collides(s, p.tenant, KeyOf(p, env), TierOf(p, env).value)
    case BuildResult(tenant, outputs, expected) =>
      AllExpected(outputs, expected) && exists n: nat :: LastWrites(outputs, n) && Collides(s, tenant, outputs[n].key, Built)
    case Materialise(tenant, hash, from, env) =>
      env.recordWorks && Offers(s, from, hash) && Collides(s, tenant, s.rows[from].key, Verified)
    case _ => false
  }

  /** A step that records one row breaks the sharing exactly when that row collides. */
  lemma RecordSharesExactly(s: State, tenant: Tenant, path: Path, sigs: seq<Sig>, key: Key, tier: Tier)
    requires SharesVerifiedOnly(s)
    ensures SharesVerifiedOnly(Record(s, tenant, path, sigs, key, tier)) <==> !Collides(s, tenant, key, tier)
  {
    var t, id := Record(s, tenant, path, sigs, key, tier), (tenant, path);
    if Collides(s, tenant, key, tier) {
      var y: Id :| y in s.rows && y.0 != tenant && s.rows[y].key == key && !(tier == Verified && s.rows[y].tier == Verified);
      assert Improper(t, id, y);
    } else {
      forall x: Id, y: Id
        ensures !Improper(t, x, y)
      {
        assert !Improper(s, x, y);
      }
    }
  }

  lemma BuildSharesExactly(s: State, tenant: Tenant, outputs: seq<Output>)
    requires SharesVerifiedOnly(s)
    ensures SharesVerifiedOnly(BuiltAll(s, tenant, outputs))
       <==> !exists n: nat :: LastWrites(outputs, n) && Collides(s, tenant, outputs[n].key, Built)
  {
    var t := BuiltAll(s, tenant, outputs);
    BuiltAllEffect(s, tenant, outputs);
    if n: nat :| LastWrites(outputs, n) && Collides(s, tenant, outputs[n].key, Built) {
      var y: Id :| y in s.rows && y.0 != tenant && s.rows[y].key == outputs[n].key;
      WrittenRow(s, tenant, outputs, n);
      assert Improper(t, (tenant, outputs[n].path), y);
    } else {
      forall x: Id, y: Id
        ensures !Improper(t, x, y)
      {
        if Improper(t, x, y) && x.0 == tenant {
          BuiltRowShares(s, tenant, outputs, x, y);
        } else if Improper(t, x, y) && y.0 == tenant {
          BuiltRowShares(s, tenant, outputs, y, x);
        } else {
          assert !Improper(s, x, y);
        }
      }
    }
  }

  lemma BuiltRowShares(s: State, tenant: Tenant, outputs: seq<Output>, x: Id, y: Id)
    requires SharesVerifiedOnly(s) && x.0 == tenant
    requires Improper(BuiltAll(s, tenant, outputs), x, y) || Improper(BuiltAll(s, tenant, outputs), y, x)
    ensures exists n: nat :: LastWrites(outputs, n) && Collides(s, tenant, outputs[n].key, Built)
  {
    BuiltAllEffect(s, tenant, outputs);
    RowSource(s, tenant, outputs, x);
    assert !Improper(s, x, y) && !Improper(s, y, x);
    var n: nat :| LastWrites(outputs, n) && x == (tenant, outputs[n].path);
    WrittenRow(s, tenant, outputs, n);
    assert Collides(s, tenant, outputs[n].key, Built);
  }

  /** Tenants go on sharing verified content only exactly through steps that record no colliding row. */
  lemma NextSharesExactly(s: State, e: Event, t: State)
    requires SharesVerifiedOnly(s) && Next(s, e, t)
    ensures SharesVerifiedOnly(t) <==> !Intrudes(s, e)
  {
    hide NarKey, StorePaths.HashPart, BuiltAll, Owns, Signed, NeedsPut, AlreadyVouched, SharesVerifiedOnly, Collides;
    match e
    case ClientPush(p, env) =>
      if Lands(s, p, env) {
        var tier := TierOf(p, env).value;
        var row := Record(s, p.tenant, p.path, Signed(p.sigs, tier, env.made), KeyOf(p, env), tier);
        RecordSharesExactly(s, p.tenant, p.path, Signed(p.sigs, tier, env.made), KeyOf(p, env), tier);
        SameRowsShare(row, t);
      } else {
        SameRowsShare(s, t);
      }
    case BuildResult(tenant, outputs, _) => BuildSharesExactly(s, tenant, outputs);
    case Materialise(tenant, _, from, env) =>
      RecordSharesExactly(s, tenant, from.1, Signed([], Verified, env.made), s.rows[from].key, Verified);
    case _ => QuietStepShares(s, e, t);
  }

  lemma SameRowsShare(s: State, t: State)
    requires s.rows == t.rows
    ensures SharesVerifiedOnly(s) <==> SharesVerifiedOnly(t)
  {
    assert forall x: Id, y: Id :: Improper(s, x, y) <==> Improper(t, x, y);
  }

  lemma QuietStepShares(s: State, e: Event, t: State)
    requires SharesVerifiedOnly(s) && Next(s, e, t) && (e.WorkerPut? || e.AddSignatures? || e.SetLive? || e.Reap?)
    ensures SharesVerifiedOnly(t)
  {
    forall x: Id, y: Id
      ensures !Improper(t, x, y)
    {
      assert !Improper(s, x, y);
    }
  }

  /** Over every run: tenants share verified content only, at every moment, if and only if no step records a row under a
      key that another tenant's row already names, unless both are verified. */
  lemma {:induction false} SharingExactly(states: seq<State>, events: seq<Event>, n: nat)
    requires Run(states, events) && SharesVerifiedOnly(states[0]) && n < |states|
    ensures (forall i :: 0 <= i <= n ==> SharesVerifiedOnly(states[i])) <==> (forall i :: 0 <= i < n ==> !Intrudes(states[i], events[i]))
  {
    hide Next, Intrudes, SharesVerifiedOnly;
    if n > 0 {
      SharingExactly(states, events, n - 1);
      assert Next(states[n - 1], events[n - 1], states[n - 1 + 1]);
      if SharesVerifiedOnly(states[n - 1]) {
        NextSharesExactly(states[n - 1], events[n - 1], states[n]);
      }
    }
  }

  ghost predicate Misplaced(s: State, y: Id) {
    y in s.rows && s.rows[y].tier == Built && !InPlace(y, s.rows[y])
  }

  ghost predicate PlainTenants(s: State) {
    forall id: Id :: id in s.rows ==> SlashFree(id.0)
  }

  /** Where every row is under its own key, tenants share verified content only. */
  lemma InPlaceSharesVerifiedOnly(s: State)
    requires KeysInPlace(s) && PlainTenants(s)
    ensures SharesVerifiedOnly(s)
  {
    hide NarKey, StorePaths.HashPart, InPlace;
    forall x: Id, y: Id
      ensures !Improper(s, x, y)
    {
      if x in s.rows && y in s.rows {
        SharedExactly(x, s.rows[x], y, s.rows[y]);
      }
    }
  }

  /** A key in its place collides only with a build result that is not. */
  lemma CollidesWithMisplaced(s: State, id: Id, row: Row)
    requires OthersInPlace(s) && PlainTenants(s) && SlashFree(id.0) && InPlace(id, row) && Collides(s, id.0, row.key, row.tier)
    ensures exists y: Id :: Misplaced(s, y)
  {
    hide NarKey, StorePaths.HashPart, InPlace;
    var y: Id :| y in s.rows && y.0 != id.0 && s.rows[y].key == row.key && !(row.tier == Verified && s.rows[y].tier == Verified);
    if InPlace(y, s.rows[y]) {
      SharedExactly(id, row, y, s.rows[y]);
    }
    assert Misplaced(s, y);
  }

  /** Whenever the sharing breaks, some build result reported a key not its own: in this step, or in a row still there.
      A wrong key that nobody else names does no harm. */
  lemma IntrusionNeedsWrongKey(s: State, e: Event)
    requires OthersInPlace(s) && PlainTenants(s) && SlashFree(Actor(e)) && Intrudes(s, e)
    ensures (exists y: Id :: Misplaced(s, y)) || !HonestKeys(e)
  {
    hide NarKey, StorePaths.HashPart, Collides, NeedsPut, AlreadyVouched, TierOf, OthersInPlace, PlainTenants;
    match e
    case ClientPush(p, env) =>
      var tier := TierOf(p, env).value;
      var row := Row(tier, KeyOf(p, env), [], true);
      CollidesWithMisplaced(s, (p.tenant, p.path), row);
    case BuildResult(tenant, outputs, _) =>
      var n: nat :| LastWrites(outputs, n) && Collides(s, tenant, outputs[n].key, Built);
      if HonestKey(tenant, outputs[n]) {
        CollidesWithMisplaced(s, (tenant, outputs[n].path), Row(Built, outputs[n].key, [], true));
      }
    case Materialise(tenant, hash, from, env) => MaterialisedCollides(s, tenant, hash, from);
    case _ =>
  }

  lemma MaterialisedCollides(s: State, tenant: Tenant, hash: string, from: Id)
    requires OthersInPlace(s) && PlainTenants(s) && SlashFree(tenant) && Offers(s, from, hash)
    requires Collides(s, tenant, s.rows[from].key, Verified)
    ensures exists y: Id :: Misplaced(s, y)
  {
    assert InPlace(from, s.rows[from]);
    assert NarKey(from.0, Verified, hash) == NarKey(tenant, Verified, hash);
    hide NarKey, StorePaths.HashPart, Collides, PlainTenants, OthersInPlace;
    CollidesWithMisplaced(s, (tenant, from.1), s.rows[from]);
  }

  /** There are paths with a hash part. */
  lemma SomeHashPart() returns (path: Path, hash: string)
    ensures StorePaths.HashPart(path) == Some(hash)
  {
    hash := seq(32, _ => '0');
    path := hash + "-" + "p";
    StorePaths.HashPartOf(hash, "p");
  }

  /** A worker of tenant "b" reports the key of a quarantined path of tenant "a": the result is recorded, and the two
      tenants share what nobody verified. */
  lemma ReportedForeignKeyIsShared() returns (path: Path, key: Key, s: State, t: State)
    ensures KeysInPlace(s) && SharesVerifiedOnly(s) && ("a", path) in s.rows && s.rows[("a", path)].tier == Quarantined
    ensures Next(s, BuildResult("b", [Output(path, key, None, true)], {path}), t)
    ensures Improper(t, ("a", path), ("b", path))
  {
    hide StorePaths.HashPart, NarKey;
    var hash;
    path, hash := SomeHashPart();
    key := NarKey("a", Quarantined, hash);
    var o := Output(path, key, None, true);
    s := State(map[("a", path) := Row(Quarantined, key, [], true)], {key}, {key});
    t := BuiltOne(s, "b", o);
    assert [o][..0] == [] && BuiltAll(s, "b", []) == s;
    assert "a"[0] != "b"[0];
  }

  /** A build output that the collector has marked, and a push of it without an address: the row is quarantined, and its
      signature gone. */
  lemma MarkedRowIsDemoted() returns (path: Path, s: State, e: Event, t: State)
    ensures Next(s, e, t) && e.ClientPush? && HeldVouchable(s, ("a", path)) && !HeldVouchable(t, ("a", path))
    ensures s.rows[("a", path)].sigs == ["sig"] && ("a", path) in t.rows && t.rows[("a", path)].sigs == []
  {
    hide StorePaths.HashPart, NarKey;
    var hash;
    path, hash := SomeHashPart();
    s := State(map[("a", path) := Row(Built, NarKey("a", Built, hash), ["sig"], false)], {}, {});
    var p, env := Push("a", path, [], Absent), Env(false, false, true, true, true, None);
    e, t := ClientPush(p, env), Pushed(s, p, env);
  }

  // ----- the methods -----

  /** The paths reported outside the job's verified set, in order. */
  function Bogus(outputs: seq<Output>, expected: set<Path>): (r: seq<Path>)
    ensures r == [] <==> AllExpected(outputs, expected)
    ensures forall p :: p in r <==> p !in expected && exists n :: 0 <= n < |outputs| && outputs[n].path == p
    ensures |r| <= |outputs|
  {
    if outputs == [] then [] else
      assert forall n :: 0 <= n < |outputs| - 1 ==> outputs[n] == outputs[..|outputs| - 1][n];
      var last := outputs[|outputs| - 1];
      Bogus(outputs[..|outputs| - 1], expected) + if last.path in expected then [] else [last.path]
  }

  /** The tenant holds the path at a vouchable tier, live, and the lookup says so. */
  predicate HeldReadable(s: State, p: Push, env: Env) {
    !env.lookupFails && HeldVouchable(s, (p.tenant, p.path)) && s.rows[(p.tenant, p.path)].live
  }

  class Frontend {
    var s: State
    var staged: seq<(Path, Key)>

    constructor ()
      ensures s == State(map[], {}, {}) && staged == [] && KeysInPlace(s)
    {
      s, staged := State(map[], {}, {}), [];
    }

    /** `NarSink::finalize`: a push is stored exactly when its address checked out, or it has none and the tenant takes
        such pushes and does not hold the path, live and readable, at a vouchable tier; there is somewhere to put it and
        it has a hash part; and its bytes were put, or it was verified and the object known; and its row is recorded. */
    method Finalize(p: Push, env: Env, objectLookupFails: bool) returns (a: Answer)
      modifies this
      ensures Next(old(s), ClientPush(p, env), s)
      ensures a.Stored? <==>
        && (p.address == Passed || (p.address == Absent && !env.rejects && !HeldReadable(old(s), p, env)))
        && env.uploader && StorePaths.HashPart(p.path).Some? && env.recordWorks
        && (env.putWorks || (p.address == Passed && NarKey(p.tenant, Verified, StorePaths.HashPart(p.path).value) in old(s).objects))
      ensures a.Kept? <==> p.address == Absent && !env.rejects && HeldReadable(old(s), p, env)
      ensures a.Stored? ==> a.key == NarKey(p.tenant, if p.address == Passed then Verified else Quarantined, StorePaths.HashPart(p.path).value)
      ensures a.Stored? ==> (a.key in s.put <==> a.key in old(s).put || !(p.address == Passed && a.key in old(s).objects))
      ensures a.Stored? && Backed(old(s)) ==> a.key in s.put
      ensures a.Stored? ==> (p.tenant, p.path) in s.rows && s.rows[(p.tenant, p.path)].key == a.key && s.rows[(p.tenant, p.path)].live
      ensures a.Kept? ==> s == old(s) && a.key == if objectLookupFails then "" else s.rows[(p.tenant, p.path)].key
      ensures staged == old(staged) + if a.Refused? then [] else [(p.path, a.key)]
      ensures s.rows == if a.Stored? then old(s).rows[(p.tenant, p.path) := s.rows[(p.tenant, p.path)]] else old(s).rows
    {
      hide NarKey, StorePaths.HashPart;
      var tier;
      match p.address {
        case Passed => tier := Verified;
        case Failed => return Refused;
        case Absent =>
          if env.rejects {
            return Refused;
          }
          tier := Quarantined;
      }
      var existing := TierLookup(s, p.tenant, p.path, env.lookupFails);
      if existing.Some? && Vouchable(existing.value) && tier != Verified {
        var key := if objectLookupFails then "" else s.rows[(p.tenant, p.path)].key;
        staged := staged + [(p.path, key)];
        return Kept(key);
      }
      var hash := StorePaths.HashPart(p.path);
      if !env.uploader || hash.None? {
        return Refused;
      }
      var key := NarKey(p.tenant, tier, hash.value);
      var alreadyThere := tier == Verified && key in s.objects;
      if !alreadyThere {
        if !env.putWorks {
          return Refused;
        }
        s := s.(put := s.put + {key});
      }
      var sigs := Signed(p.sigs, tier, env.made);
      if !env.recordWorks {
        return Refused;
      }
      s := Record(s, p.tenant, p.path, sigs, key, tier);
      staged := staged + [(p.path, key)];
      a := Stored(key);
    }

    /** `record_outputs`. */
    method RecordOutputs(tenant: Tenant, outputs: seq<Output>, expected: set<Path>) returns (bogus: seq<Path>)
      modifies this`s
      ensures Next(old(s), BuildResult(tenant, outputs, expected), s)
      ensures bogus == Bogus(outputs, expected)
      ensures bogus != [] ==> s == old(s)
      ensures bogus == [] ==> s == BuiltAll(old(s), tenant, outputs)
    {
      bogus := Bogus(outputs, expected);
      if bogus != [] {
        return;
      }
      ghost var before := s;
      for n := 0 to |outputs|
        invariant s == BuiltAll(before, tenant, outputs[..n])
      {
        var o := outputs[n];
        var sigs := Signed([], Built, o.made);
        if o.recordWorks {
          s := Record(s, tenant, o.path, sigs, o.key, Built);
        }
        assert outputs[..n + 1][..n] == outputs[..n];
      }
      assert outputs[..|outputs|] == outputs;
    }

    /** `resolve_verified`. */
    method ResolveVerified(tenant: Tenant, hash: string, env: Env) returns (r: Option<Path>, ghost from: Id)
      modifies this`s
      ensures Owns(old(s), tenant, hash) ==> r.Some? && s == old(s)
      ensures !Owns(old(s), tenant, hash) && r.Some? ==> Next(old(s), Materialise(tenant, hash, from, env), s) && from.1 == r.value
      ensures r.None? ==> s == old(s)
      ensures r.None? <==> !Owns(old(s), tenant, hash) && ((forall id: Id :: !Offers(old(s), id, hash)) || !env.recordWorks)
      ensures Owns(old(s), tenant, hash) <==>
        exists path :: (tenant, path) in old(s).rows && old(s).rows[(tenant, path)].live && StorePaths.HashPart(path) == Some(hash)
      ensures !Owns(old(s), tenant, hash) && r.Some? ==> from in old(s).rows && old(s).rows[from].live && old(s).rows[from].tier == Verified
      ensures !Owns(old(s), tenant, hash) && r.Some? ==> StorePaths.HashPart(from.1) == Some(hash) && old(s).rows[from].key in old(s).objects
      ensures !Owns(old(s), tenant, hash) && r.Some? ==> s.rows[(tenant, r.value)].tier == Verified
      ensures r.Some? ==> StorePaths.HashPart(r.value) == Some(hash) && (tenant, r.value) in s.rows && s.rows[(tenant, r.value)].live
    {
      from := ("", "");
      if id: Id :| id in s.rows && id.0 == tenant && s.rows[id].live && StorePaths.HashPart(id.1) == Some(hash) {
        return Some(id.1), from;
      }
      if id: Id :| id in s.rows && Offers(s, id, hash) {
        if !env.recordWorks {
          return None, from;
        }
        s := Record(s, tenant, id.1, Signed([], Verified, env.made), s.rows[id].key, Verified);
        return Some(id.1), id;
      }
      r := None;
    }
  }
}
