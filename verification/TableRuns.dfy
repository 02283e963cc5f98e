/**
  The entries of the side table over whole runs: which registration an entry comes from and what takes it away, when a
  record or a close goes through, and what each of the commits leaves in the entry.
*/
module TableRuns {
  import opened Prelude
  import opened PoolRealm
  import opened SideTable

  // ----- which entries are there -----

  /** Event number `n` registers this weak reference under `id`. */
  ghost predicate Registers(states: seq<World>, events: seq<Event>, n: nat, id: int, weak: WeakRef)
    requires Run(states, events) && n < |events|
  {
    var e, r, s := events[n], ReadBy(states, events, n), states[n];
    && e.Register? && !s.poisoned && e.adapter in s.live && s.live[e.adapter] == id
    && !(id in r.entries && r.entries[id].weak.target == e.adapter)
    && weak == WeakRef(s.nextRef, e.adapter)
  }

  ghost predicate RegistersAny(states: seq<World>, events: seq<Event>, n: nat, id: int)
    requires Run(states, events) && n < |events|
  {
    exists weak :: Registers(states, events, n, id, weak)
  }

  /** Event number `n` takes the entry of this weak reference away: by id, by reference, found dead, or a fork. */
  ghost predicate TakesAway(states: seq<World>, events: seq<Event>, n: nat, id: int, weak: WeakRef)
    requires Run(states, events) && n < |events|
  {
    var e, r, s := events[n], ReadBy(states, events, n), states[n];
    && !s.poisoned
    && match e
       case Drop(i) => i == id
       case DropReference(i, w) => i == id && w == weak
       case Reap(_, dead) =>
         id in dead && id in r.entries && id in s.entries && r.entries[id].epoch == s.entries[id].epoch
       case Fork => true
       case _ => false
  }

  ghost predicate RegisteredAt(states: seq<World>, events: seq<Event>, m: nat, n: nat, id: int, weak: WeakRef)
    requires Run(states, events) && m < n <= |events|
  {
    && Registers(states, events, m, id, weak)
    && forall k :: m < k < n ==>
         !TakesAway(states, events, k, id, weak) && !RegistersAny(states, events, k, id)
  }

  /** The weak reference was registered under `id`, and since then neither taken away nor replaced. */
  ghost predicate Registered(states: seq<World>, events: seq<Event>, n: nat, id: int, weak: WeakRef)
    requires Run(states, events) && n <= |events|
  {
    exists m: nat :: m < n && RegisteredAt(states, events, m, n, id, weak)
  }

  lemma RegisteredExtended(states: seq<World>, events: seq<Event>, n: nat, id: int, weak: WeakRef)
    requires Run(states, events) && n < |events|
    ensures Registered(states, events, n + 1, id, weak) <==>
              || Registers(states, events, n, id, weak)
              || (&& Registered(states, events, n, id, weak) && !TakesAway(states, events, n, id, weak)
                  && !RegistersAny(states, events, n, id))
  {
    hide Run, Registers, RegistersAny, TakesAway;
    if Registers(states, events, n, id, weak) { assert RegisteredAt(states, events, n, n + 1, id, weak); }
    if Registered(states, events, n, id, weak) && !TakesAway(states, events, n, id, weak)
       && !RegistersAny(states, events, n, id)
    {
      var m: nat :| m < n && RegisteredAt(states, events, m, n, id, weak);
      assert RegisteredAt(states, events, m, n + 1, id, weak);
    }
    if Registered(states, events, n + 1, id, weak) {
      var m: nat :| m < n + 1 && RegisteredAt(states, events, m, n + 1, id, weak);
      if m < n { assert RegisteredAt(states, events, m, n, id, weak); }
    }
  }

  ghost predicate Under(s: World, id: int, weak: WeakRef) { id in s.entries && s.entries[id].weak == weak }

  lemma CommitKeepsWeak(r: World, s: World, e: Event, id: int)
    requires e.AdmitPool? || e.Record? || e.Close?
    ensures var t := Step(r, s, e);
            (id in t.entries <==> id in s.entries) && (id in s.entries ==> t.entries[id].weak == s.entries[id].weak)
  {
    hide AdmissionOf, SameManagers, Drained, Wrap, Updated;
  }

  lemma UnderStep(states: seq<World>, events: seq<Event>, n: nat, id: int, weak: WeakRef)
    requires Run(states, events) && n < |events|
    ensures Under(states[n + 1], id, weak) <==>
              || Registers(states, events, n, id, weak)
              || (&& Under(states[n], id, weak) && !TakesAway(states, events, n, id, weak)
                  && !RegistersAny(states, events, n, id))
  {
    StepOfRun(states, events, n);
    hide Run, ReadBy, AdmissionOf, SameManagers, Drained, Wrap, Updated;
    var e, s := events[n], states[n];
    if e.AdmitPool? || e.Record? || e.Close? { CommitKeepsWeak(ReadBy(states, events, n), s, e, id); }
    hide AdmitCommit, RecordCommit, CloseCommit;
    if e.Register? && e.adapter in s.live && Registers(states, events, n, id, WeakRef(s.nextRef, e.adapter)) {
      assert Under(states[n + 1], id, WeakRef(s.nextRef, e.adapter));
    }
  }

  /**
    The table, in every run: under an id it holds the entry of exactly that weak reference which was registered
    there and since then was neither dropped by its id or by itself, nor reaped, nor replaced, nor lost in a fork.
  */
  lemma {:induction false} EntriesRegistered(states: seq<World>, events: seq<Event>, n: nat, id: int, weak: WeakRef)
    requires Run(states, events) && n <= |events|
    ensures Under(states[n], id, weak) <==> Registered(states, events, n, id, weak)
  {
    hide Step, Registers, RegistersAny, TakesAway, Registered, ReadBy;
    if n == 0 {
      NothingRegistered(states, events, id, weak);
    } else {
      EntriesRegistered(states, events, n - 1, id, weak);
      RegisteredExtended(states, events, n - 1, id, weak);
      UnderStep(states, events, n - 1, id, weak);
    }
  }

  lemma NothingRegistered(states: seq<World>, events: seq<Event>, id: int, weak: WeakRef)
    requires Run(states, events)
    ensures !Under(states[0], id, weak) && !Registered(states, events, 0, id, weak)
  {
  }

  // ----- which commits go through -----

  /** A close goes through exactly when the entry it read is still there, unchanged in every part. */
  lemma CloseIffUnchanged(states: seq<World>, events: seq<Event>, n: nat)
    requires Run(states, events) && n < |events| && events[n].Close?
    ensures var r, s, id := ReadBy(states, events, n), states[n], events[n].id;
            CloseCommits(r, s, id) <==> id in r.entries && id in s.entries && s.entries[id] == r.entries[id]
  {
    var r, s, id := ReadBy(states, events, n), states[n], events[n].id;
    if CloseCommits(r, s, id) { CloseActsOnWhatItRead(states, events, n); }
  }

  /** A record goes through exactly when the incarnation and its revision are still the ones it read. */
  lemma RecordIffUnchanged(states: seq<World>, events: seq<Event>, n: nat)
    requires Run(states, events) && n < |events| && events[n].Record?
    ensures var r, s, id, update := ReadBy(states, events, n), states[n], events[n].id, events[n].update;
            RecordCommits(r, s, id, update) <==>
              && id in r.entries && id in s.entries
              && s.entries[id].epoch == r.entries[id].epoch && s.entries[id].revision == r.entries[id].revision
              && (update.UpdateProxies? ==>
                    forall url :: url in r.entries[id].proofs.proxies ==>
                      url in update.proxies && update.proxies[url].manager == r.entries[id].proofs.proxies[url].manager)
  {
    assert Enabled(states, events, n);
    var r, s, id := ReadBy(states, events, n), states[n], events[n].id;
    if id in r.entries && id in s.entries && s.entries[id].epoch == r.entries[id].epoch {
      EpochNamesIncarnation(states, events, events[n].began, n, id);
    }
  }

  /** An admission changes nothing but the incarnation it was prepared for, and there one realm and the counter. */
  lemma AdmissionStaysInside(r: World, s: World, e: Event)
    requires e.AdmitPool? && !s.poisoned
    ensures var t := Step(r, s, e);
            && t.entries.Keys == s.entries.Keys
            && (forall id :: id in s.entries && id != e.id ==> t.entries[id] == s.entries[id])
            && (e.id in s.entries ==>
                  var x, y := s.entries[e.id], t.entries[e.id];
                  && y == x.(realms := y.realms, admissions := y.admissions)
                  && (forall q :: q != e.realm && q in x.realms ==> q in y.realms && y.realms[q] == x.realms[q])
                  && (forall q :: q != e.realm && q in y.realms ==> q in x.realms)
                  && (y == x || y.admissions == (x.admissions + 1) % 0x1_0000_0000_0000_0000)
                  && (y != x ==> e.id in r.entries && x.epoch == r.entries[e.id].epoch))
  {
    hide Evict, Touch;
  }

  // ----- what the commits leave behind -----

  /** A registration starts a fresh incarnation with the proofs it was given, and touches no other entry. */
  lemma RegistrationWrites(states: seq<World>, events: seq<Event>, n: nat, id: int, weak: WeakRef)
    requires Run(states, events) && n < |events| && Registers(states, events, n, id, weak)
    ensures var s, t := states[n], states[n + 1];
            && t.entries == s.entries[id := Entry(s.nextEpoch, 0, 0, weak, events[n].proofs, map[])]
            && t.nextEpoch == s.nextEpoch + 1 && t.leaving == s.leaving + Drained(s.entries, {id})
  {
    StepOfRun(states, events, n);
    ReachableCounters(states, events, n);
    WrapSmall(states[n].nextEpoch + 1);
    hide Run, ReadBy, Wrap, Drained;
  }

  /** A record that goes through writes what it was given, raises the revision by one and nothing else. */
  lemma RecordWrites(states: seq<World>, events: seq<Event>, n: nat)
    requires Run(states, events) && n < |events| && events[n].Record?
    ensures var r, s, t, e := ReadBy(states, events, n), states[n], states[n + 1], events[n];
            if s.poisoned || !RecordCommits(r, s, e.id, e.update) then t == s
            else
              && t.entries.Keys == s.entries.Keys
              && (forall id :: id in s.entries && id != e.id ==> t.entries[id] == s.entries[id])
              && var x, y := s.entries[e.id], t.entries[e.id];
                 && y.epoch == x.epoch && y.admissions == x.admissions && y.weak == x.weak && y.realms == x.realms
                 && y.revision == x.revision + 1
                 && match e.update
                    case UpdateDirect(pools) =>
                      && y.proofs.direct.pools == pools && y.proofs.direct.manager == x.proofs.direct.manager
                      && y.proofs.proxies == x.proofs.proxies
                    case UpdateProxies(proxies) => y.proofs.direct == x.proofs.direct && y.proofs.proxies == proxies
  {
    StepOfRun(states, events, n);
    var r, s, e := ReadBy(states, events, n), states[n], events[n];
    if RecordCommits(r, s, e.id, e.update) {
      ReachableCounters(states, events, n);
      WrapSmall(s.entries[e.id].revision + 1);
    }
    hide Run, ReadBy, Wrap, RecordCommits;
  }

  /** A close that goes through starts a new incarnation under the same id, without pools. */
  lemma CloseWrites(states: seq<World>, events: seq<Event>, n: nat)
    requires Run(states, events) && n < |events| && events[n].Close?
    ensures var r, s, t, e := ReadBy(states, events, n), states[n], states[n + 1], events[n];
            if s.poisoned || !CloseCommits(r, s, e.id) then t == s
            else
              && t.entries.Keys == s.entries.Keys
              && (forall id :: id in s.entries && id != e.id ==> t.entries[id] == s.entries[id])
              && t.nextEpoch == s.nextEpoch + 1 && t.leaving == s.leaving + Drained(s.entries, {e.id})
              && var x, y := s.entries[e.id], t.entries[e.id];
                 && y.epoch == s.nextEpoch && y.admissions == x.admissions && y.weak == x.weak && y.realms == map[]
                 && y.revision == x.revision + 1
                 && y.proofs.direct.pools == e.pools && y.proofs.direct.manager == x.proofs.direct.manager
                 && y.proofs.proxies.Keys == x.proofs.proxies.Keys
                 && forall url :: url in x.proofs.proxies ==>
                      && y.proofs.proxies[url].manager == x.proofs.proxies[url].manager
                      && y.proofs.proxies[url].pools ==
                         if url in e.proxyPools then e.proxyPools[url] else x.proofs.proxies[url].pools
  {
    StepOfRun(states, events, n);
    var r, s, e := ReadBy(states, events, n), states[n], events[n];
    ReachableCounters(states, events, n);
    WrapSmall(s.nextEpoch + 1);
    if CloseCommits(r, s, e.id) { WrapSmall(s.entries[e.id].revision + 1); }
    hide Run, ReadBy, Wrap, CloseCommits, Drained;
  }
}
