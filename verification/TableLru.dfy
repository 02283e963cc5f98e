/**
  The realms of the side table in whole runs: a realm that is always admitted to with the same capacity holds
  the last keys admitted to it since the incarnation of its entry began, and this says when an admission panics.
*/
module TableLru {
  import opened Prelude
  import opened PoolRealm
  import opened SideTable

  /** Event number `n` admits a key to this realm. */
  ghost predicate Admits(states: seq<World>, events: seq<Event>, n: nat, id: int, realm: RealmId)
    requires Run(states, events) && n < |events|
  {
    var e, r, s := events[n], ReadBy(states, events, n), states[n];
    && e.AdmitPool? && e.id == id && e.realm == realm && !s.poisoned
    && Current(r, s, id) && AdmissionOf(r, s, id, realm, e.key, e.capacity).Admitted?
  }

  /** Both states have the same incarnation under `id`. */
  ghost predicate Stays(s: World, t: World, id: int) {
    id in s.entries && id in t.entries && s.entries[id].epoch == t.entries[id].epoch
  }

  /** The keys admitted to the realm since the incarnation that `states[n]` has under `id` began. */
  ghost function Admitted(states: seq<World>, events: seq<Event>, n: nat, id: int, realm: RealmId): seq<Key>
    requires Run(states, events) && n <= |events|
  {
    if n == 0 || !Stays(states[n - 1], states[n], id) then []
    else
      var before := Admitted(states, events, n - 1, id, realm);
      if Admits(states, events, n - 1, id, realm) then before + [events[n - 1].key] else before
  }

  /** The incarnation that `states[n]` has under `id` has only seen admissions to the realm with the capacity `c`. */
  ghost predicate Constant(states: seq<World>, events: seq<Event>, n: nat, id: int, realm: RealmId, c: nat)
    requires Run(states, events) && n <= |events|
  {
    forall m :: 0 <= m < n && Stays(states[m], states[n], id) && Admits(states, events, m, id, realm) ==>
      events[m].capacity == c
  }

  /** The realm is what the admitted keys say. */
  ghost predicate Lru(realm: Realm, keys: seq<Key>, c: nat) {
    Ordered(realm) && |realm.pools| <= c && realm.order == Last(Recency(keys), c)
  }

  /** A step that is no admission to the realm leaves it alone or starts the entry afresh. */
  lemma OtherStep(r: World, s: World, e: Event, n: nat, id: int, realm: RealmId)
    requires Counters(s, n) && n < U64 - 2
    requires e.AdmitPool? && e.id == id && e.realm == realm && !s.poisoned && Current(r, s, id) ==>
               AdmissionOf(r, s, id, realm, e.key, e.capacity).Panic?
    ensures var t := Step(r, s, e);
            id in t.entries ==>
              RealmOf(t.entries[id], realm) == if Stays(s, t, id) then RealmOf(s.entries[id], realm) else EMPTY
  {
  }

  lemma AdmissionIsUse(realm: Realm, key: Key, candidate: Option<Pool>, keys: seq<Key>, c: nat)
    requires Lru(realm, keys, c) && Admit(realm, key, candidate, c).Admitted?
    ensures Lru(Admit(realm, key, candidate, c).realm, keys + [key], c)
  {
    hide Evict, Without, Last, Ordered, Recency, NoRepeats, Touch;
    var pool := if candidate.Some? then candidate.value else 0;
    assert Admit(realm, key, candidate, c) == Admit(realm, key, Some(pool), c);
    hide Admit;
    AdmitOrder(realm, key, pool, c);
    LastOfTouched(Recency(keys), key, c);
    RecencyAppend(keys, key);
  }

  lemma RecencyAppend(keys: seq<Key>, key: Key)
    ensures Recency(keys + [key]) == Without(Recency(keys), key) + [key]
  {
    hide Without;
    assert (keys + [key])[..|keys|] == keys;
  }

  /** An admission to the realm is one more use. */
  lemma AdmittingStep(r: World, s: World, e: Event, keys: seq<Key>, c: nat)
    requires e.AdmitPool? && !s.poisoned && Current(r, s, e.id) && e.capacity == c
    requires AdmissionOf(r, s, e.id, e.realm, e.key, c).Admitted?
    requires Lru(RealmOf(s.entries[e.id], e.realm), keys, c)
    ensures var t := Step(r, s, e);
            Stays(s, t, e.id) && Lru(RealmOf(t.entries[e.id], e.realm), keys + [e.key], c)
  {
    hide Admit, Elements, Wrap, Lru;
    AdmissionIsUse(RealmOf(s.entries[e.id], e.realm), e.key, Candidate(r, s, e.id, e.realm, e.key), keys, c);
  }

  /**
    The LRU refinement in every run: a realm that its incarnation only admitted to with one capacity, which may be
    zero, holds exactly the last keys admitted to it since that incarnation began.
  */
  lemma {:induction false} LruInRuns(states: seq<World>, events: seq<Event>, n: nat, id: int, realm: RealmId, c: nat)
    requires Run(states, events) && n <= |events| && Constant(states, events, n, id, realm, c)
    ensures id in states[n].entries ==>
              Lru(RealmOf(states[n].entries[id], realm), Admitted(states, events, n, id, realm), c)
  {
    hide Lru, Admitted, Admits, Step;
    if n == 0 {
      assert id !in states[0].entries;
    } else if id in states[n].entries {
      if Stays(states[n - 1], states[n], id) { LruInRuns(states, events, n - 1, id, realm, c); }
      if Admits(states, events, n - 1, id, realm) { AdmissionStays(states, events, n - 1, id, realm); }
      LruStep(states, events, n - 1, id, realm, c);
    }
  }

  lemma AdmissionStays(states: seq<World>, events: seq<Event>, n: nat, id: int, realm: RealmId)
    requires Run(states, events) && n < |events| && Admits(states, events, n, id, realm)
    ensures Stays(states[n], states[n + 1], id)
  {
    StepOfRun(states, events, n);
    hide Admit, Elements, Wrap, Run;
  }

  lemma LruStep(states: seq<World>, events: seq<Event>, n: nat, id: int, realm: RealmId, c: nat)
    requires Run(states, events) && n < |events|
    requires Admits(states, events, n, id, realm) ==> events[n].capacity == c
    requires Stays(states[n], states[n + 1], id) ==>
             Lru(RealmOf(states[n].entries[id], realm), Admitted(states, events, n, id, realm), c)
    ensures id in states[n + 1].entries ==>
              Lru(RealmOf(states[n + 1].entries[id], realm), Admitted(states, events, n + 1, id, realm), c)
  {
    hide Run, Step, Lru, Counters, RealmOf, AdmissionOf, ReadBy;
    StepOfRun(states, events, n);
    var e, s, r := events[n], states[n], ReadBy(states, events, n);
    ReachableCounters(states, events, n);
    if Admits(states, events, n, id, realm) {
      AdmissionStays(states, events, n, id, realm);
      AdmittingStep(r, s, e, Admitted(states, events, n, id, realm), c);
    } else {
      OtherStep(r, s, e, n, id, realm);
      EmptyLru(c);
    }
  }

  lemma EmptyLru(c: nat)
    ensures Lru(EMPTY, [], c)
  {
  }

  // ----- the panic -----

  lemma {:induction false} AdmittedGrows(states: seq<World>, events: seq<Event>, i: nat, j: nat, id: int,
    realm: RealmId)
    requires Run(states, events) && i <= j <= |events|
    requires forall k :: i <= k <= j ==> Stays(states[i], states[k], id)
    ensures Admitted(states, events, i, id, realm) <= Admitted(states, events, j, id, realm)
  {
    hide Admits;
    if i < j {
      AdmittedGrows(states, events, i, j - 1, id, realm);
      assert Stays(states[i], states[j - 1], id) && Stays(states[i], states[j], id);
    }
  }

  lemma ResidentWasAdmitted(realm: Realm, keys: seq<Key>, c: nat, key: Key)
    requires Lru(realm, keys, c)
    ensures key in realm.pools <==> key in Last(Recency(keys), c)
    ensures key in realm.pools ==> key in keys
  {
    assert key in realm.pools <==> key in Members(realm.order);
    assert key in Recency(keys) ==> key in Members(Recency(keys));
  }

  /**
    When an admission panics, in every run: if its first half found the key resident and the entry is still the
    same incarnation, whose admissions to the realm were made with the capacity `c`, then exactly if at least `c`
    distinct keys, all of them other keys, were admitted to the realm since the last use of the key.
  */
  lemma PanicsIffCrowdedOut(states: seq<World>, events: seq<Event>, n: nat, c: nat) returns (i: nat)
    requires Run(states, events) && n < |events| && events[n].AdmitPool?
    requires Constant(states, events, n, events[n].id, events[n].realm, c)
    requires !states[n].poisoned && Current(ReadBy(states, events, n), states[n], events[n].id)
    requires events[n].key in RealmOf(ReadBy(states, events, n).entries[events[n].id], events[n].realm).pools
    ensures var keys := Admitted(states, events, n, events[n].id, events[n].realm);
            && LastUse(keys, i, events[n].key)
            && (states[n + 1].poisoned <==> |Members(keys[i + 1..])| >= c)
  {
    hide Step, Lru, Counters, Members, LastUse, Recency, Last;
    var e := events[n];
    var b := Began(e, n);
    assert Enabled(states, events, n) && Next(states[b], states[n], e, states[n + 1]);
    EpochNamesIncarnation(states, events, b, n, e.id);
    AdmittedGrows(states, events, b, n, e.id, e.realm);
    var before, keys := Admitted(states, events, b, e.id, e.realm), Admitted(states, events, n, e.id, e.realm);
    hide Admitted, Admits;
    assert Constant(states, events, b, e.id, e.realm, c);
    LruInRuns(states, events, b, e.id, e.realm, c);
    ResidentWasAdmitted(RealmOf(states[b].entries[e.id], e.realm), before, c, e.key);
    assert e.key in before && e.key in keys;
    i := FindLastUse(keys, e.key);
    LruInRuns(states, events, n, e.id, e.realm, c);
    ResidentWasAdmitted(RealmOf(states[n].entries[e.id], e.realm), keys, c, e.key);
    LastIffRecent(keys, c, i, e.key);
    AdmissionPanics(states[b], states[n], e);
  }
}
