/**
  The side table as the source keeps it: a dictionary behind a lock, changed in place by the second
  half of each operation from what its first half read. Every method is proved to act as its event in the
  interleaving model of `SideTable`, so that the theorems there are about these updates.
*/
module AdapterTable {
  import opened Prelude
  import opened PoolRealm
  import opened SideTable

  /** What the first half of a reap found dead. */
  datatype Candidate = Candidate(id: int, epoch: nat)

  /** The ids whose entry is still the incarnation that was found dead. */
  ghost function DeadIds(entries: map<int, Entry>, dead: seq<Candidate>): set<int> {
    set id | id in entries && Candidate(id, entries[id].epoch) in dead
  }

  /** `removed` are the entries of the given ids, one for each. */
  ghost predicate Lists(removed: seq<Entry>, entries: map<int, Entry>, ids: set<int>) {
    && ids <= entries.Keys && |removed| == |ids|
    && (forall id :: id in ids ==> entries[id] in removed)
  }

  /** The loop over the dead: each is removed unless its id has meanwhile been reused. */
  method RemoveDead(entries: map<int, Entry>, dead: seq<Candidate>) returns (rest: map<int, Entry>, removed: seq<Entry>)
    ensures rest == entries - DeadIds(entries, dead) && Lists(removed, entries, DeadIds(entries, dead))
  {
    rest, removed := entries, [];
    ghost var gone: set<int> := {};
    for i := 0 to |dead|
      invariant gone == DeadIds(entries, dead[..i]) && rest == entries - gone && Lists(removed, entries, gone)
    {
      var id := dead[i].id;
      assert dead[..i + 1] == dead[..i] + [dead[i]];
      if id in rest && rest[id].epoch == dead[i].epoch {
        assert dead[i] == Candidate(id, entries[id].epoch);
        removed := removed + [rest[id]];
        rest := rest - {id};
        gone := gone + {id};
      }
    }
    assert dead[..|dead|] == dead;
  }

  lemma DeadAreReaped(r: World, s: World, ids: set<int>, dead: seq<Candidate>)
    requires forall id :: id in ids <==> exists i :: 0 <= i < |dead| && dead[i].id == id
    requires forall i :: 0 <= i < |dead| ==> dead[i].id in r.entries && r.entries[dead[i].id].epoch == dead[i].epoch
    ensures DeadIds(s.entries, dead) == Reaped(r, s, ids)
  {
    forall id ensures id in DeadIds(s.entries, dead) <==> id in Reaped(r, s, ids) {
      if id in Reaped(r, s, ids) {
        var i :| 0 <= i < |dead| && dead[i].id == id;
        assert dead[i] == Candidate(id, s.entries[id].epoch);
      }
    }
  }

  class Table {
    var entries: map<int, Entry>
    var nextEpoch: nat
    var poisoned: bool
    ghost var model: World

    ghost predicate Valid()
      reads this
    {
      model.entries == entries && model.nextEpoch == nextEpoch && model.poisoned == poisoned
    }

    constructor ()
      ensures Valid() && model == INITIAL
    {
      entries, nextEpoch, poisoned, model := map[], 1, false, INITIAL;
    }

    method FreshEpoch() returns (epoch: nat)
      modifies this`nextEpoch
      ensures epoch == old(nextEpoch) && nextEpoch == Wrap(epoch + 1)
    {
      epoch := nextEpoch;
      nextEpoch := Wrap(nextEpoch + 1);
    }

    /** The last block of `_adapter_register_trial`; `registered` is what its first block found out. */
    method RegisterAdapter(ghost r: World, ghost began: nat, adapter: nat, id: int, weak: WeakRef, proofs: Proofs,
      registered: bool)
      returns (previous: Option<Entry>)
      requires Valid() && adapter in model.live && model.live[adapter] == id && weak == WeakRef(model.nextRef, adapter)
      requires registered <==> id in r.entries && r.entries[id].weak.target == adapter
      modifies this
      ensures Valid() && model == Step(r, old(model), Register(began, adapter, proofs))
      ensures previous == if old(poisoned) || registered || id !in old(entries) then None else Some(old(entries)[id])
    {
      hide Wrap, Drained;
      previous := None;
      if !poisoned && !registered {
        if id in entries { previous := Some(entries[id]); }
        var epoch := FreshEpoch();
        entries := entries[id := Entry(epoch, 0, 0, weak, proofs, map[])];
      }
      model := Step(r, model, Register(began, adapter, proofs));
    }

    method DropEntry(id: int) returns (removed: Option<Entry>)
      requires Valid()
      modifies this
      ensures Valid() && model == Step(old(model), old(model), Drop(id))
      ensures removed == if !old(poisoned) && id in old(entries) then Some(old(entries)[id]) else None
    {
      hide Drained;
      removed := None;
      if !poisoned && id in entries {
        removed := Some(entries[id]);
        entries := entries - {id};
      }
      model := Step(model, model, Drop(id));
    }

    /** `_adapter_drop_reference_trial`: only the entry made for this very weak reference goes. */
    method DropReferenced(id: int, weak: WeakRef) returns (removed: Option<Entry>)
      requires Valid()
      modifies this
      ensures Valid() && model == Step(old(model), old(model), DropReference(id, weak))
      ensures removed == if !old(poisoned) && id in old(entries) && old(entries)[id].weak == weak
                         then Some(old(entries)[id]) else None
    {
      hide Drained;
      removed := None;
      if !poisoned && id in entries && entries[id].weak == weak {
        removed := Some(entries[id]);
        entries := entries - {id};
      }
      model := Step(model, model, DropReference(id, weak));
    }

    /** The second half of `reap_adapter_pools`. */
    method ReapDead(ghost r: World, ghost e: Event, dead: seq<Candidate>) returns (removed: seq<Entry>)
      requires Valid() && e.Reap?
      requires forall id :: id in e.dead <==> exists i :: 0 <= i < |dead| && dead[i].id == id
      requires forall i :: 0 <= i < |dead| ==> dead[i].id in r.entries && r.entries[dead[i].id].epoch == dead[i].epoch
      modifies this
      ensures Valid() && model == Step(r, old(model), e)
      ensures if poisoned then removed == [] else Lists(removed, old(entries), Reaped(r, old(model), e.dead.Keys))
    {
      removed := [];
      if !poisoned {
        DeadAreReaped(r, model, e.dead.Keys, dead);
        entries, removed := RemoveDead(entries, dead);
      }
      hide Drained, Reaped;
      model := Step(r, model, e);
    }

    /** The locked block of `adapter_pool`. `epoch`, `manager` and `hit` were read by its first half. */
    method AdmitLocked(ghost r: World, ghost began: nat, id: int, epoch: nat, manager: nat, hit: bool,
                       realm: RealmId, key: Key, candidate: Option<Pool>, capacity: nat)
      returns (pool: Option<Pool>, evicted: seq<Pool>)
      requires Valid() && id in r.entries && epoch == r.entries[id].epoch
               && manager == r.entries[id].proofs.direct.manager
      requires hit <==> key in RealmOf(r.entries[id], realm).pools
      requires candidate == if hit then None else Some(model.nextPool)
      modifies this
      ensures Valid() && model == Step(r, old(model), AdmitPool(began, id, realm, key, capacity))
      ensures pool.Some? ==> model.leaving == old(model.leaving) + multiset(evicted)
      ensures Conserved(old(model)) ==> NoRepeats(evicted)
      ensures pool.Some? ==>
                && id in old(entries) && id in entries
                && pool == (var held := RealmOf(old(entries)[id], realm).pools;
                            if key in held then Some(held[key]) else candidate)
                && (capacity > 0 || key in RealmOf(old(entries)[id], realm).pools ==>
                      var now := RealmOf(entries[id], realm).pools; key in now && now[key] == pool.value)
      ensures pool.None? ==> evicted == [] && model == old(model).(poisoned := poisoned)
    {
      hide Wrap, Admit, Injective, Conserved;
      pool, evicted := None, [];
      if !poisoned && id in entries && entries[id].epoch == epoch && entries[id].proofs.direct.manager == manager {
        var entry := entries[id];
        var mutable := new MutableRealm(RealmOf(entry, realm));
        if Conserved(model) { ResidentRealm(model, id, realm); }
        pool, evicted := mutable.AdmitPool(key, candidate, capacity);
        if pool.None? {
          poisoned := true;
        } else {
          var after := Realm(mutable.pools, mutable.order);
          entries := entries[id := entry.(realms := entry.realms[realm := after],
                                          admissions := Wrap(entry.admissions + 1))];
        }
      }
      model := Step(r, model, AdmitPool(began, id, realm, key, capacity));
    }

    /** The comparison of managers that both the proxy record and the close make. */
    method ManagersUnchanged(current: map<int, ManagerRecord>, expected: map<int, ManagerRecord>) returns (same: bool)
      ensures same <==> SameManagers(current, expected)
    {
      same := |current| == |expected|
              && forall url | url in current :: url in expected && current[url].manager == expected[url].manager;
      assert current.Keys == expected.Keys ==> |current| == |expected|;
      if same {
        forall url | url in current ensures url in expected { assert current[url].manager == expected[url].manager; }
        SubsetOfSameSize(current.Keys, expected.Keys);
      }
    }

    /** The locked block of `record_visible_direct_manager` or `record_visible_proxy_manager`. */
    method RecordLocked(ghost r: World, ghost began: nat, id: int, read: Entry, update: ProofUpdate)
      returns (done: bool)
      requires Valid() && id in r.entries && read == r.entries[id]
      requires update.UpdateProxies? ==> forall url :: url in read.proofs.proxies ==>
                 url in update.proxies && update.proxies[url].manager == read.proofs.proxies[url].manager
      modifies this
      ensures Valid() && model == Step(r, old(model), Record(began, id, update))
      ensures done <==> !poisoned && RecordCommits(r, old(model), id, update)
    {
      hide Wrap;
      done := false;
      if !poisoned && id in entries && entries[id].epoch == read.epoch
         && entries[id].proofs.direct.manager == read.proofs.direct.manager && entries[id].revision == read.revision {
        var same := ManagersUnchanged(entries[id].proofs.proxies, read.proofs.proxies);
        if update.UpdateDirect? || same {
          var entry := entries[id];
          var proofs := match update
            case UpdateDirect(pools) => entry.proofs.(direct := entry.proofs.direct.(pools := pools))
            case UpdateProxies(proxies) => entry.proofs.(proxies := proxies);
          entries := entries[id := entry.(proofs := proofs, revision := Wrap(entry.revision + 1))];
          done := true;
        }
      }
      model := Step(r, model, Record(began, id, update));
    }

    /** The locked block of `_adapter_close_trial`. */
    method CloseLocked(ghost r: World, ghost began: nat, id: int, read: Entry, pools: nat, proxyPools: map<int, nat>)
      returns (closed: Option<map<RealmId, Realm>>)
      requires Valid() && id in r.entries && read == r.entries[id]
      modifies this
      ensures Valid() && model == Step(r, old(model), Close(began, id, pools, proxyPools))
      ensures closed == if !poisoned && CloseCommits(r, old(model), id) then Some(old(entries)[id].realms) else None
    {
      hide Wrap, Drained;
      closed := None;
      if !poisoned && id in entries && entries[id].epoch == read.epoch && entries[id].admissions == read.admissions
         && entries[id].revision == read.revision && entries[id].proofs.direct.manager == read.proofs.direct.manager {
        var same := ManagersUnchanged(entries[id].proofs.proxies, read.proofs.proxies);
        if same {
          var entry := entries[id];
          closed := Some(entry.realms);
          var epoch := FreshEpoch();
          var proxies := map url | url in entry.proofs.proxies ::
            if url in proxyPools then entry.proofs.proxies[url].(pools := proxyPools[url])
            else entry.proofs.proxies[url];
          entries := entries[id := entry.(epoch := epoch, revision := Wrap(entry.revision + 1), realms := map[],
                                          proofs := Proofs(entry.proofs.direct.(pools := pools), proxies))];
        }
      }
      model := Step(r, model, Close(began, id, pools, proxyPools));
    }

    /** `ensure_adapter_process` in a forked child. */
    method ResetAfterFork() returns (inherited: map<int, Entry>)
      requires Valid()
      modifies this
      ensures Valid() && model == Step(old(model), old(model), Fork)
      ensures inherited == if poisoned then map[] else old(entries)
      ensures !poisoned ==> entries == map[] && nextEpoch == 1
    {
      hide Drained;
      inherited := map[];
      if !poisoned {
        inherited := entries;
        entries, nextEpoch := map[], 1;
      }
      model := Step(model, model, Fork);
    }
  }

  lemma SubsetOfSameSize<T>(a: set<T>, b: set<T>)
    requires a <= b && |a| == |b|
    ensures a == b
  {
    assert |b - a| == 0;
  }
}
