/** Keeping the gateway's registry of models equal to the local one: periodic reconciliation with a sweep
    of orphans, and single upsert and delete events. A remote call may fail, having taken effect or not. */
module ModelSync {
  import opened AttendanceRecords
  import Intervals

  /** How a model's key is stored: in the clear, possibly blank, or sealed, when it may not open. */
  datatype Credential = Plain(blank: bool) | Sealed(opens: bool, blankInside: bool)

  datatype Model = Model(id: int, disabled: bool, credential: Credential, config: int)

  /** What is routed remotely: model to configuration. */
  type Registry = map<int, int>

  /** How the calls made for one model go. */
  datatype Calls = Calls(clientOk: bool, applied: bool, storeOk: bool, rowThere: bool)

  predicate Honest(c: Calls) {
    c.clientOk ==> c.applied
  }

  /** Whether the syncer gets as far as calling the client. A sealed key must open even for a model that
      is only to be removed. */
  predicate Ready(m: Model, cipher: bool) {
    match m.credential
    case Plain(blank) => m.disabled || !blank
    case Sealed(opens, blankInside) => cipher && opens && (m.disabled || !blankInside)
  }

  function Wanted(remote: Registry, m: Model): Registry {
    if m.disabled then remote - {m.id} else remote[m.id := m.config]
  }

  function AfterModel(remote: Registry, m: Model, cipher: bool, c: Calls): Registry {
    if Ready(m, cipher) && c.applied then Wanted(remote, m) else remote
  }

  predicate Succeeds(m: Model, cipher: bool, c: Calls) {
    Ready(m, cipher) && c.clientOk && c.storeOk && c.rowThere
  }

  /** A tenant whose listing may fail. */
  datatype Tenant = Tenant(listed: bool, models: seq<Model>)

  function ListedOf(tenant: Tenant): seq<Model> {
    if tenant.listed then tenant.models else []
  }

  function Listed(tenants: seq<Tenant>): seq<Model> {
    if tenants == [] then [] else Listed(tenants[..|tenants| - 1]) + ListedOf(tenants[|tenants| - 1])
  }

  predicate AllListed(tenants: seq<Tenant>) {
    forall t | t in tenants :: t.listed
  }

  function Local(tenants: seq<Tenant>): seq<Model> {
    if tenants == [] then [] else Local(tenants[..|tenants| - 1]) + tenants[|tenants| - 1].models
  }

  predicate DistinctModels(models: seq<Model>) {
    forall i, j | 0 <= i < j < |models| :: models[i].id != models[j].id
  }

  function Ids(models: seq<Model>): set<int> {
    set m | m in models :: m.id
  }

  function Enabled(models: seq<Model>): set<int> {
    set m | m in models && !m.disabled :: m.id
  }

  /** Whether a model's key can be read: it is stored in the clear, or there is a cipher and it opens. */
  predicate Opened(m: Model, cipher: bool) {
    m.credential.Plain? || (cipher && m.credential.opens)
  }

  predicate HasKey(m: Model) {
    match m.credential
    case Plain(blank) => !blank
    case Sealed(_, blankInside) => !blankInside
  }

  /** What a reconcile does to one model's route. An enabled model is routed as configured if its key can be
      read and is not blank; a disabled one is removed exactly if its key can be read, which removing it
      would not need. Otherwise, and for every other model, the route stays. */
  lemma RoutesExactly(remote: Registry, m: Model, cipher: bool, c: Calls)
    ensures var n := AfterModel(remote, m, cipher, c);
            var written := c.applied && Opened(m, cipher) && !m.disabled && HasKey(m);
            var removed := c.applied && Opened(m, cipher) && m.disabled;
      && (written ==> n == remote[m.id := m.config])
      && (removed ==> n == remote - {m.id})
      && (!written && !removed ==> n == remote)
  {
  }

  /** And when it reports success. */
  lemma SucceedsExactly(m: Model, cipher: bool, c: Calls)
    ensures Succeeds(m, cipher, c) <==>
      Opened(m, cipher) && (m.disabled || HasKey(m)) && c.clientOk && c.storeOk && c.rowThere
  {
  }

  /** What a sweep leaves: every route of a local model, and every other one whose removal did not take
      effect. */
  lemma SweepsExactly(remote: Registry, local: set<int>, removed: int -> bool, id: int)
    ensures var n := AfterSweep(remote, local, removed);
      && (id in n <==> id in remote && (id in local || !removed(id)))
      && (id in n ==> n[id] == remote[id])
  {
  }

  function AfterModels(remote: Registry, models: seq<Model>, cipher: bool, calls: int -> Calls): Registry {
    if models == [] then remote
    else
      var last := models[|models| - 1];
      AfterModel(AfterModels(remote, models[..|models| - 1], cipher, calls), last, cipher, calls(last.id))
  }

  predicate AllSucceed(models: seq<Model>, cipher: bool, calls: int -> Calls) {
    forall m | m in models :: Succeeds(m, cipher, calls(m.id))
  }

  /** Remote models without a local one are removed, as far as the removals take effect. */
  function AfterSweep(remote: Registry, local: set<int>, removed: int -> bool): Registry {
    map id | id in remote && (id in local || !removed(id)) :: remote[id]
  }

  datatype Event = Upsert(id: int, calls: Calls) | Delete(id: int, clientOk: bool, applied: bool)

  /** A call the client reports as done was done. */
  predicate HonestEvent(e: Event) {
    match e
    case Upsert(_, calls) => Honest(calls)
    case Delete(_, clientOk, applied) => clientOk ==> applied
  }

  function Find(local: seq<Model>, id: int): Option<Model> {
    if local == [] then None
    else if local[|local| - 1].id == id then Some(local[|local| - 1])
    else Find(local[..|local| - 1], id)
  }

  /** An upsert routes the model as it is stored now, and does nothing for a row that is gone; a delete
      removes without looking. */
  function Handled(remote: Registry, local: seq<Model>, cipher: bool, e: Event): Registry {
    match e
    case Upsert(id, calls) =>
      (match Find(local, id)
       case Some(m) => AfterModel(remote, m, cipher, calls)
       case None => remote)
    case Delete(id, _, applied) => if applied then remote - {id} else remote
  }

  function HandledAll(remote: Registry, local: seq<Model>, cipher: bool, events: seq<Event>): Registry {
    if events == [] then remote
    else Handled(HandledAll(remote, local, cipher, events[..|events| - 1]), local, cipher, events[|events| - 1])
  }

  /** A listing names every routed model once. */
  predicate IsListing(ids: seq<int>, remote: Registry) {
    && (forall id | id in remote :: id in ids)
    && (forall id | id in ids :: id in remote)
    && (forall i, j | 0 <= i < j < |ids| :: ids[i] != ids[j])
  }

  class ModelSyncer {
    var remote: Registry
    var synced: map<int, bool>

    constructor ()
      ensures remote == map[] && synced == map[]
    {
      remote, synced := map[], map[];
    }

    method ReconcileModel(m: Model, cipher: bool, c: Calls) returns (ok: bool)
      requires Honest(c)
      modifies this
      ensures remote == AfterModel(old(remote), m, cipher, c)
      ensures ok == Succeeds(m, cipher, c)
      ensures synced == if Ready(m, cipher) && c.storeOk && c.rowThere then old(synced)[m.id := c.clientOk]
                        else old(synced)
    {
      var keyBlank := m.credential.Plain? && m.credential.blank;
      if m.credential.Sealed? {
        if !cipher {
          return false;
        }
        if !m.credential.opens {
          return false;
        }
        keyBlank := m.credential.blankInside;
      }
      if !m.disabled && keyBlank {
        return false;
      }
      if c.applied {
        if m.disabled {
          remote := remote - {m.id};
        } else {
          remote := remote[m.id := m.config];
        }
      }
      if !c.clientOk {
        if c.storeOk && c.rowThere {
          synced := synced[m.id := false];
        }
        return false;
      }
      if !c.storeOk || !c.rowThere {
        return false;
      }
      synced := synced[m.id := true];
      return true;
    }

    method ReconcileModels(models: seq<Model>, cipher: bool, calls: int -> Calls) returns (failures: nat)
      requires forall id :: Honest(calls(id))
      modifies this
      ensures remote == AfterModels(old(remote), models, cipher, calls)
      ensures failures == 0 <==> AllSucceed(models, cipher, calls)
    {
      failures := 0;
      for i := 0 to |models|
        invariant remote == AfterModels(old(remote), models[..i], cipher, calls)
        invariant failures == 0 <==> forall j | 0 <= j < i :: Succeeds(models[j], cipher, calls(models[j].id))
      {
        assert models[..i + 1][..i] == models[..i];
        var ok := ReconcileModel(models[i], cipher, calls(models[i].id));
        if !ok {
          failures := failures + 1;
        }
      }
      assert models[..|models|] == models;
    }

    method HandleAgentModelSyncEvent(local: seq<Model>, cipher: bool, e: Event) returns (ok: bool)
      requires HonestEvent(e)
      modifies this
      ensures remote == Handled(old(remote), local, cipher, e)
      ensures e.Upsert? ==> (ok <==> Find(local, e.id).None? || Succeeds(Find(local, e.id).value, cipher, e.calls))
      ensures e.Delete? ==> ok == e.clientOk && (ok ==> e.id !in remote)
    {
      if e.Delete? {
        if e.applied {
          remote := remote - {e.id};
        }
        return e.clientOk;
      }
      var i := |local|;
      assert local[..i] == local;
      while i > 0 && local[i - 1].id != e.id
        invariant 0 <= i <= |local| && Find(local, e.id) == Find(local[..i], e.id)
      {
        assert local[..i][..i - 1] == local[..i - 1];
        i := i - 1;
      }
      if i == 0 {
        return true;
      }
      assert Find(local[..i], e.id) == Some(local[i - 1]);
      ok := ReconcileModel(local[i - 1], cipher, e.calls);
    }

    /** The gateway's listing of the models it routes for us. */
    method ListManagedModelIDs() returns (ids: seq<int>)
      ensures IsListing(ids, remote)
    {
      ids := [];
      var left := remote.Keys;
      while left != {}
        invariant left <= remote.Keys
        invariant forall id :: id in ids <==> id in remote && id !in left
        invariant forall i, j | 0 <= i < j < |ids| :: ids[i] != ids[j]
        decreases |left|
      {
        ghost var some := Intervals.Pick(left);
        var id: int :| id in left;
        ids := ids + [id];
        left := left - {id};
      }
    }

    method SweepOrphanModels(local: set<int>, listOk: bool, removed: int -> bool) returns (swept: nat)
      modifies this`remote
      ensures remote == if listOk then AfterSweep(old(remote), local, removed) else old(remote)
      ensures swept == if listOk then |old(remote).Keys - local| else 0
    {
      swept := 0;
      if !listOk {
        return;
      }
      ghost var before := remote;
      var remoteIds := ListManagedModelIDs();
      for i := 0 to |remoteIds|
        invariant remote == AfterRemovals(before, remoteIds[..i], local, removed)
        invariant swept == Unknown(remoteIds[..i], local)
      {
        assert remoteIds[..i + 1][..i] == remoteIds[..i];
        if remoteIds[i] !in local {
          swept := swept + 1;
          if removed(remoteIds[i]) {
            remote := remote - {remoteIds[i]};
          }
        }
      }
      assert remoteIds[..|remoteIds|] == remoteIds;
      FullSweep(before, remoteIds, local, removed);
    }

    /** One tenant's models, if they could be listed. */
    method ReconcileTenant(tenant: Tenant, cipher: bool, calls: int -> Calls) returns (ok: bool, processed: nat)
      requires forall id :: Honest(calls(id))
      modifies this
      ensures remote == AfterModels(old(remote), ListedOf(tenant), cipher, calls)
      ensures ok <==> tenant.listed && AllSucceed(ListedOf(tenant), cipher, calls)
      ensures processed == |ListedOf(tenant)|
    {
      if !tenant.listed {
        return false, 0;
      }
      var failures := ReconcileModels(tenant.models, cipher, calls);
      ok, processed := failures == 0, |tenant.models|;
    }

    /** Tenant by tenant; a tenant whose listing failed is skipped. */
    method ReconcileTenants(tenants: seq<Tenant>, cipher: bool, calls: int -> Calls)
      returns (ok: bool, processed: nat, localIDs: set<int>)
      requires forall id :: Honest(calls(id))
      modifies this
      ensures remote == AfterModels(old(remote), Listed(tenants), cipher, calls)
      ensures ok <==> AllListed(tenants) && AllSucceed(Listed(tenants), cipher, calls)
      ensures processed == |Listed(tenants)| && localIDs == Ids(Listed(tenants))
    {
      ok, processed, localIDs := true, 0, {};
      ghost var before := remote;
      for i := 0 to |tenants|
        invariant remote == AfterModels(before, Listed(tenants[..i]), cipher, calls)
        invariant ok <==> AllListed(tenants[..i]) && AllSucceed(Listed(tenants[..i]), cipher, calls)
        invariant processed == |Listed(tenants[..i])| && localIDs == Ids(Listed(tenants[..i]))
      {
        OneMoreTenant(before, tenants, i, cipher, calls);
        var done, count := ReconcileTenant(tenants[i], cipher, calls);
        localIDs := localIDs + Ids(ListedOf(tenants[i]));
        ok, processed := ok && done, processed + count;
      }
      assert tenants[..|tenants|] == tenants;
    }

    /** The tenants, then the sweep over what no listed tenant has, which runs even if some tenant could
        not be listed. */
    method Reconcile(tenants: seq<Tenant>, cipher: bool, calls: int -> Calls, sweep: bool, listOk: bool,
                     removed: int -> bool)
      returns (ok: bool, processed: nat)
      requires forall id :: Honest(calls(id))
      modifies this
      ensures remote == AfterReconcile(old(remote), tenants, cipher, calls, sweep && listOk, removed)
      ensures ok <==> AllListed(tenants) && AllSucceed(Listed(tenants), cipher, calls)
      ensures processed == |Listed(tenants)| +
        (if sweep && listOk then |Orphans(old(remote), Listed(tenants), cipher, calls)| else 0)
    {
      var localIDs;
      ok, processed, localIDs := ReconcileTenants(tenants, cipher, calls);
      if sweep {
        var swept := SweepOrphanModels(localIDs, listOk, removed);
        processed := processed + swept;
      }
    }
  }

  function AfterRemovals(remote: Registry, ids: seq<int>, local: set<int>, removed: int -> bool): Registry {
    if ids == [] then remote
    else
      var rest, id := AfterRemovals(remote, ids[..|ids| - 1], local, removed), ids[|ids| - 1];
      if id !in local && removed(id) then rest - {id} else rest
  }

  /** How many of a listing's identifiers no local model has. */
  function Unknown(ids: seq<int>, local: set<int>): nat {
    if ids == [] then 0 else Unknown(ids[..|ids| - 1], local) + (if ids[|ids| - 1] in local then 0 else 1)
  }

  lemma {:induction false} RemovalsLeave(remote: Registry, ids: seq<int>, local: set<int>, removed: int -> bool,
                                         id: int)
    ensures var n := AfterRemovals(remote, ids, local, removed);
      && (id in n <==> id in remote && (id in local || !removed(id) || id !in ids))
      && (id in n ==> n[id] == remote[id])
  {
    if ids != [] {
      assert ids == ids[..|ids| - 1] + [ids[|ids| - 1]];
      RemovalsLeave(remote, ids[..|ids| - 1], local, removed, id);
    }
  }

  /** Removing what a full listing holds besides the local models is the sweep. */
  lemma RemovalsSweep(remote: Registry, ids: seq<int>, local: set<int>, removed: int -> bool)
    requires forall id :: id in ids <==> id in remote
    ensures AfterRemovals(remote, ids, local, removed) == AfterSweep(remote, local, removed)
  {
    var n, m := AfterRemovals(remote, ids, local, removed), AfterSweep(remote, local, removed);
    forall id ensures (id in n <==> id in m) && (id in n ==> n[id] == m[id]) {
      RemovalsLeave(remote, ids, local, removed, id);
    }
  }

  lemma WithoutOne(all: set<int>, id: int, local: set<int>)
    requires id in all
    ensures |all - local| == |(all - {id}) - local| + (if id in local then 0 else 1)
  {
    assert all - local == ((all - {id}) - local) + (if id in local then {} else {id});
  }

  lemma LastIsNew(ids: seq<int>, all: set<int>)
    requires ids != [] && (forall i, j | 0 <= i < j < |ids| :: ids[i] != ids[j])
    requires forall id :: id in ids <==> id in all
    ensures forall id :: id in ids[..|ids| - 1] <==> id in all && id != ids[|ids| - 1]
  {
    var init, last := ids[..|ids| - 1], ids[|ids| - 1];
    assert ids == init + [last];
    forall i | 0 <= i < |init| ensures init[i] != last {
      assert ids[i] != ids[|ids| - 1];
    }
  }

  lemma {:induction false} UnknownCount(ids: seq<int>, all: set<int>, local: set<int>)
    requires (forall i, j | 0 <= i < j < |ids| :: ids[i] != ids[j])
    requires forall id :: id in ids <==> id in all
    ensures Unknown(ids, local) == |all - local|
  {
    if ids == [] {
      assert forall id :: id in all ==> id in ids;
    } else {
      var last := ids[|ids| - 1];
      LastIsNew(ids, all);
      UnknownCount(ids[..|ids| - 1], all - {last}, local);
      WithoutOne(all, last, local);
    }
  }

  /** Going through a full listing removes and counts what the sweep should. */
  lemma FullSweep(remote: Registry, ids: seq<int>, local: set<int>, removed: int -> bool)
    requires IsListing(ids, remote)
    ensures AfterRemovals(remote, ids, local, removed) == AfterSweep(remote, local, removed)
    ensures Unknown(ids, local) == |remote.Keys - local|
  {
    RemovalsSweep(remote, ids, local, removed);
    UnknownCount(ids, remote.Keys, local);
  }

  lemma OneMoreTenant(remote: Registry, tenants: seq<Tenant>, i: nat, cipher: bool, calls: int -> Calls)
    requires i < |tenants|
    ensures var done, more, next := Listed(tenants[..i]), ListedOf(tenants[i]), Listed(tenants[..i + 1]);
      && AfterModels(remote, next, cipher, calls)
        == AfterModels(AfterModels(remote, done, cipher, calls), more, cipher, calls)
      && |next| == |done| + |more| && Ids(next) == Ids(done) + Ids(more)
      && (AllSucceed(next, cipher, calls) <==> AllSucceed(done, cipher, calls) && AllSucceed(more, cipher, calls))
      && (AllListed(tenants[..i + 1]) <==> AllListed(tenants[..i]) && tenants[i].listed)
  {
    assert tenants[..i + 1][..i] == tenants[..i];
    assert tenants[..i + 1] == tenants[..i] + [tenants[i]];
    AfterBoth(remote, Listed(tenants[..i]), ListedOf(tenants[i]), cipher, calls);
  }

  // ----------------------------------------------------------- convergence

  lemma {:induction false} AfterBoth(remote: Registry, a: seq<Model>, b: seq<Model>, cipher: bool, calls: int -> Calls)
    ensures AfterModels(remote, a + b, cipher, calls)
              == AfterModels(AfterModels(remote, a, cipher, calls), b, cipher, calls)
    ensures Ids(a + b) == Ids(a) + Ids(b)
    ensures AllSucceed(a + b, cipher, calls) <==> AllSucceed(a, cipher, calls) && AllSucceed(b, cipher, calls)
  {
    if b == [] {
      assert a + b == a;
    } else {
      assert (a + b)[..|a + b| - 1] == a + b[..|b| - 1];
      AfterBoth(remote, a, b[..|b| - 1], cipher, calls);
    }
  }

  /** What is routed for no listed model once the listed ones are written. */
  function Orphans(remote: Registry, models: seq<Model>, cipher: bool, calls: int -> Calls): set<int> {
    AfterModels(remote, models, cipher, calls).Keys - Ids(models)
  }

  function AfterReconcile(remote: Registry, tenants: seq<Tenant>, cipher: bool, calls: int -> Calls, swept: bool,
                          removed: int -> bool): Registry {
    var models := Listed(tenants);
    var updated := AfterModels(remote, models, cipher, calls);
    if swept then AfterSweep(updated, Ids(models), removed) else updated
  }

  lemma {:induction false} ModelsLeave(remote: Registry, models: seq<Model>, cipher: bool, calls: int -> Calls, id: int)
    requires id !in Ids(models)
    ensures var n := AfterModels(remote, models, cipher, calls);
      (id in n <==> id in remote) && (id in n ==> n[id] == remote[id])
  {
    if models != [] {
      var init, last := models[..|models| - 1], models[|models| - 1];
      assert last in models && last.id in Ids(models);
      assert forall m | m in init :: m in models && m.id in Ids(models);
      ModelsLeave(remote, init, cipher, calls, id);
    }
  }

  /** What the pass over the local models leaves for one it could write: exactly what is wanted. */
  lemma {:induction false} ModelsSet(remote: Registry, models: seq<Model>, cipher: bool, calls: int -> Calls, m: Model)
    requires DistinctModels(models) && m in models && Ready(m, cipher) && calls(m.id).applied
    ensures var n := AfterModels(remote, models, cipher, calls);
      (m.id in n <==> !m.disabled) && (m.id in n ==> n[m.id] == m.config)
  {
    var init, last := models[..|models| - 1], models[|models| - 1];
    assert models == init + [last];
    if m != last {
      ModelsSet(remote, init, cipher, calls, m);
      assert m.id != last.id;
    }
  }

  predicate AgreesWith(remote: Registry, models: seq<Model>) {
    && remote.Keys == Enabled(models)
    && forall m | m in models && !m.disabled :: m.id in remote && remote[m.id] == m.config
  }

  /** A reconcile with sweep whose remote calls all succeed leaves exactly the enabled models of the
      tenants it could list, each with its current configuration. */
  lemma ReconcileConverges(remote: Registry, tenants: seq<Tenant>, cipher: bool, calls: int -> Calls)
    requires DistinctModels(Listed(tenants)) && AllSucceed(Listed(tenants), cipher, calls)
             && forall id :: Honest(calls(id))
    ensures AgreesWith(AfterReconcile(remote, tenants, cipher, calls, true, (id: int) => true), Listed(tenants))
  {
    var models := Listed(tenants);
    var n := AfterReconcile(remote, tenants, cipher, calls, true, (id: int) => true);
    forall id ensures id in n <==> id in Enabled(models) {
      if id in Ids(models) {
        var m :| m in models && m.id == id;
        assert Succeeds(m, cipher, calls(m.id));
        ModelsSet(remote, models, cipher, calls, m);
        assert id in Enabled(models) <==> !m.disabled by {
          assert forall k | k in models && k.id == id :: k == m;
        }
      } else {
        ModelsLeave(remote, models, cipher, calls, id);
      }
    }
    forall m | m in models && !m.disabled ensures m.id in n && n[m.id] == m.config {
      assert Succeeds(m, cipher, calls(m.id));
      ModelsSet(remote, models, cipher, calls, m);
      assert m.id in Ids(models) && m.id in Enabled(models);
    }
  }

  lemma {:induction false} LocalCovers(tenants: seq<Tenant>, m: Model)
    ensures m in Listed(tenants) ==> m in Local(tenants)
    ensures m in Local(tenants) <==> exists t :: t in tenants && m in t.models
    ensures m in Listed(tenants) <==> exists t :: t in tenants && t.listed && m in t.models
  {
    if tenants != [] {
      var init, last := tenants[..|tenants| - 1], tenants[|tenants| - 1];
      assert tenants == init + [last];
      LocalCovers(init, m);
    }
  }

  /** Whether that is the whole local registry: exactly when every tenant that could not be listed has
      only disabled models. Otherwise its enabled models are swept away as orphans. */
  lemma WholeRegistryExactly(remote: Registry, tenants: seq<Tenant>, cipher: bool, calls: int -> Calls)
    requires DistinctModels(Listed(tenants)) && AllSucceed(Listed(tenants), cipher, calls)
             && forall id :: Honest(calls(id))
    requires DistinctAcross(tenants)
    ensures AfterReconcile(remote, tenants, cipher, calls, true, (id: int) => true).Keys == Enabled(Local(tenants))
       <==> forall t, m | t in tenants && !t.listed && m in t.models :: m.disabled
  {
    ReconcileConverges(remote, tenants, cipher, calls);
    var n := AfterReconcile(remote, tenants, cipher, calls, true, (id: int) => true);
    forall m {
      LocalCovers(tenants, m);
    }
    if n.Keys == Enabled(Local(tenants)) {
      forall t, m | t in tenants && !t.listed && m in t.models ensures m.disabled {
        assert m in Local(tenants);
        forall k | k in Listed(tenants) ensures k.id != m.id {
          var u :| u in tenants && u.listed && k in u.models;
          assert SameTenant(t, m, u, k);
        }
        assert m.id !in Enabled(Listed(tenants));
      }
    }
    if forall t, m | t in tenants && !t.listed && m in t.models :: m.disabled {
      AllEnabledListed(tenants);
    }
  }

  lemma AllEnabledListed(tenants: seq<Tenant>)
    requires forall t, m | t in tenants && !t.listed && m in t.models :: m.disabled
    ensures Enabled(Listed(tenants)) == Enabled(Local(tenants))
  {
    forall m {
      LocalCovers(tenants, m);
    }
    forall id ensures id in Enabled(Listed(tenants)) <==> id in Enabled(Local(tenants)) {
      if m :| m in Local(tenants) && !m.disabled && m.id == id {
        var t :| t in tenants && m in t.models;
        assert t.listed;
      }
    }
  }

  predicate SameTenant(t: Tenant, m: Model, u: Tenant, k: Model) {
    m.id == k.id ==> t == u
  }

  /** A model belongs to one tenant. */
  predicate DistinctAcross(tenants: seq<Tenant>) {
    forall t, u, m, k | t in tenants && u in tenants && m in t.models && k in u.models :: SameTenant(t, m, u, k)
  }

  // ---------------------------------------------------------------- events

  /** Whether an event had its effect on this identifier. */
  predicate Touches(local: seq<Model>, cipher: bool, e: Event, id: int) {
    e.id == id && match e
      case Upsert(_, calls) => Find(local, id).Some? && Ready(Find(local, id).value, cipher) && calls.applied
      case Delete(_, _, applied) => applied
  }

  /** The last event that had an effect on an identifier. */
  function LastTouch(local: seq<Model>, cipher: bool, events: seq<Event>, id: int): Option<Event> {
    if events == [] then None
    else if Touches(local, cipher, events[|events| - 1], id) then Some(events[|events| - 1])
    else LastTouch(local, cipher, events[..|events| - 1], id)
  }

  lemma {:induction false} FindFinds(local: seq<Model>, id: int)
    ensures Find(local, id).Some? ==> Find(local, id).value in local && Find(local, id).value.id == id
    ensures Find(local, id).None? <==> id !in Ids(local)
  {
    if local != [] {
      var init, last := local[..|local| - 1], local[|local| - 1];
      assert local == init + [last];
      FindFinds(init, id);
      assert Ids(local) == Ids(init) + {last.id};
    }
  }

  /** Events in any order, with failures and repetitions: what is routed for an identifier depends only on
      the last event that had an effect on it. A delete leaves it out; an upsert leaves it as stored. */
  lemma {:induction false} LastEventDecides(remote: Registry, local: seq<Model>, cipher: bool, events: seq<Event>,
                                            id: int)
    ensures var n := HandledAll(remote, local, cipher, events); var last := LastTouch(local, cipher, events, id);
      && (last.None? ==> (id in n <==> id in remote) && (id in n ==> n[id] == remote[id]))
      && (last.Some? && last.value.Delete? ==> id !in n)
      && (last.Some? && last.value.Upsert? ==> Find(local, id).Some?)
      && (last.Some? && last.value.Upsert? ==> (id in n <==> !Find(local, id).value.disabled))
      && (last.Some? && last.value.Upsert? && id in n ==> n[id] == Find(local, id).value.config)
  {
    if events != [] {
      LastEventDecides(remote, local, cipher, events[..|events| - 1], id);
      FindFinds(local, events[|events| - 1].id);
    }
  }

  /** Deletes only of rows that are gone. */
  predicate DeletesVanished(local: seq<Model>, events: seq<Event>) {
    forall e | e in events && e.Delete? :: e.id !in Ids(local)
  }

  lemma {:induction false} TouchIsAnEvent(local: seq<Model>, cipher: bool, events: seq<Event>, id: int)
    ensures LastTouch(local, cipher, events, id).Some? ==>
      LastTouch(local, cipher, events, id).value in events
      && Touches(local, cipher, LastTouch(local, cipher, events, id).value, id)
    ensures LastTouch(local, cipher, events, id).Some? <==> exists e :: e in events && Touches(local, cipher, e, id)
  {
    if events != [] {
      var init, last := events[..|events| - 1], events[|events| - 1];
      assert events == init + [last];
      TouchIsAnEvent(local, cipher, init, id);
    }
  }

  /** With deletes only for vanished rows, in any order: a deleted model is never brought back, and every
      identifier some event had an effect on agrees with the local rows. */
  lemma EventsConverge(remote: Registry, local: seq<Model>, cipher: bool, events: seq<Event>, id: int)
    requires DeletesVanished(local, events)
    ensures var n := HandledAll(remote, local, cipher, events);
      && ((exists e :: e in events && Touches(local, cipher, e, id)) ==>
            (id in n <==> Find(local, id).Some? && !Find(local, id).value.disabled)
            && (id in n ==> n[id] == Find(local, id).value.config))
      && (id !in Ids(local) && id !in remote ==> id !in n)
  {
    LastEventDecides(remote, local, cipher, events, id);
    TouchIsAnEvent(local, cipher, events, id);
    FindFinds(local, id);
  }

  /** So the order does not matter. */
  lemma EventsAreOrderFree(remote: Registry, local: seq<Model>, cipher: bool, a: seq<Event>, b: seq<Event>)
    requires DeletesVanished(local, a) && DeletesVanished(local, b)
    requires forall e :: e in a <==> e in b
    ensures HandledAll(remote, local, cipher, a) == HandledAll(remote, local, cipher, b)
  {
    var x, y := HandledAll(remote, local, cipher, a), HandledAll(remote, local, cipher, b);
    forall id ensures (id in x <==> id in y) && (id in x ==> x[id] == y[id]) {
      EventsConverge(remote, local, cipher, a, id);
      EventsConverge(remote, local, cipher, b, id);
      LastEventDecides(remote, local, cipher, a, id);
      LastEventDecides(remote, local, cipher, b, id);
      TouchIsAnEvent(local, cipher, a, id);
      TouchIsAnEvent(local, cipher, b, id);
    }
  }

  /** Whether an identifier is routed as its stored row wants: as configured if enabled, else not. */
  predicate RoutedAsStored(remote: Registry, local: seq<Model>, id: int) {
    if Find(local, id).Some? && !Find(local, id).value.disabled
    then id in remote && remote[id] == Find(local, id).value.config else id !in remote
  }

  /** The exact condition without any assumption on deletes: an identifier some event had an effect on
      disagrees with its row if and only if the last such event was a delete and the row is enabled. */
  lemma DisagreesExactly(remote: Registry, local: seq<Model>, cipher: bool, events: seq<Event>, id: int)
    requires exists e :: e in events && Touches(local, cipher, e, id)
    ensures !RoutedAsStored(HandledAll(remote, local, cipher, events), local, id) <==>
      && LastTouch(local, cipher, events, id).Some? && LastTouch(local, cipher, events, id).value.Delete?
      && Find(local, id).Some? && !Find(local, id).value.disabled
  {
    LastEventDecides(remote, local, cipher, events, id);
    TouchIsAnEvent(local, cipher, events, id);
  }

  /** A delete that arrives after its row came back removes a live model until the next upsert. */
  lemma LateDeleteRemovesLiveModel()
    ensures var m := Model(1, false, Plain(false), 5); var done := Calls(true, true, true, true);
      1 !in HandledAll(map[], [m], false, [Upsert(1, done), Delete(1, true, true)])
  {
    var m := Model(1, false, Plain(false), 5);
    var events := [Upsert(1, Calls(true, true, true, true)), Delete(1, true, true)];
    LastEventDecides(map[], [m], false, events, 1);
    assert LastTouch([m], false, events, 1) == Some(events[1]);
  }
}
