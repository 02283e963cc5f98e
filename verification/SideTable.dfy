/**
  The adapter side table: entries keyed by reusable object ids, updated by operations that read
  under the lock, work unlocked, and commit under the lock only if the counters they read still match.

  An operation is one event at the moment of its commit; `began` names the earlier state in which its
  first half ran. A run is any sequence of events, so operations interleave freely between their halves.
*/
module SideTable {
  import opened Prelude
  import opened PoolRealm

  /** Weak references are objects of their own; `target` is the adapter, never reused as its id may be. */
  datatype WeakRef = WeakRef(ref: nat, target: nat)

  datatype ManagerRecord = ManagerRecord(manager: nat, pools: nat)

  /** The recorded proofs of one entry: the direct manager and one record per visible proxy. */
  datatype Proofs = Proofs(direct: ManagerRecord, proxies: map<int, ManagerRecord>)

  datatype RealmId = Direct | Proxy(url: int)

  datatype Entry = Entry(
    epoch: nat, admissions: nat, revision: nat,
    weak: WeakRef, proofs: Proofs, realms: map<RealmId, Realm>)

  datatype World = World(
    entries: map<int, Entry>,
    nextEpoch: nat,
    poisoned: bool,            // a panic while the lock was held
    live: map<nat, int>,       // live adapters and their ids
    nextAdapter: nat,
    nextRef: nat,
    inserted: set<Pool>,       // pools ever put into the table
    leaving: multiset<Pool>,   // listed for clearing by the operations that removed them, and not yet cleared
    cleared: multiset<Pool>,   // one occurrence per call of `clear`
    abandoned: multiset<Pool>,      // left to operations of threads that a fork did not carry over
    nextPool: nat)

  const INITIAL := World(map[], 1, false, map[], 0, 0, {}, multiset{}, multiset{}, multiset{}, 0)

  function Wrap(n: nat): nat { n % U64 }

  function RealmOf(entry: Entry, id: RealmId): Realm {
    if id in entry.realms then entry.realms[id] else EMPTY
  }

  ghost function PoolsOf(entry: Entry): set<Pool> {
    set r, k | r in entry.realms && k in entry.realms[r].pools :: entry.realms[r].pools[k]
  }

  ghost function PoolsUnder(entries: map<int, Entry>, ids: set<int>): set<Pool> {
    set id, p | id in ids && id in entries && p in PoolsOf(entries[id]) :: p
  }

  // ----- what is listed for clearing -----

  datatype Slot = Slot(id: int, realm: RealmId, key: Key)

  ghost predicate Occupied(entries: map<int, Entry>, x: Slot) {
    x.id in entries && x.realm in entries[x.id].realms && x.key in entries[x.id].realms[x.realm].pools
  }

  ghost function PoolAt(entries: map<int, Entry>, x: Slot): Pool
    requires Occupied(entries, x)
  {
    entries[x.id].realms[x.realm].pools[x.key]
  }

  ghost function SlotsUnder(entries: map<int, Entry>, ids: set<int>): set<Slot> {
    set id, r, k | id in ids && id in entries && r in entries[id].realms && k in entries[id].realms[r].pools ::
      Slot(id, r, k)
  }

  ghost function Pick(slots: set<Slot>): (x: Slot)
    requires slots != {}
    ensures x in slots
  {
    assert (forall y :: y !in slots) ==> slots == {};
    var x :| x in slots;
    x
  }

  /** The pools in some slots, one occurrence for each slot. */
  ghost function Listed(entries: map<int, Entry>, slots: set<Slot>): multiset<Pool>
    requires forall x :: x in slots ==> Occupied(entries, x)
  {
    if slots == {} then multiset{}
    else var x := Pick(slots); Listed(entries, slots - {x}) + multiset{PoolAt(entries, x)}
  }

  /** What the removal of the entries under some ids lists for clearing. */
  ghost function Drained(entries: map<int, Entry>, ids: set<int>): multiset<Pool> {
    Listed(entries, SlotsUnder(entries, ids))
  }

  datatype ProofUpdate = UpdateDirect(pools: nat) | UpdateProxies(proxies: map<int, ManagerRecord>)

  datatype Event =
    | Create(id: int)
    | Die(adapter: nat)
    | Register(began: nat, adapter: nat, proofs: Proofs)
    | Drop(id: int)
    | DropReference(id: int, weak: WeakRef)
    | Reap(began: nat, dead: map<int, nat>)  // which entries were found dead, and when
    | AdmitPool(began: nat, id: int, realm: RealmId, key: Key, capacity: nat)
    | Record(began: nat, id: int, update: ProofUpdate)
    | Close(began: nat, id: int, pools: nat, proxyPools: map<int, nat>)
    | ClearPool(pool: Pool)
    | Fork

  // ----- the commit halves -----

  function FreshEpoch(s: World): World { s.(nextEpoch := Wrap(s.nextEpoch + 1)) }

  /** `table.insert`: an earlier entry under the same id is dropped with its pools. */
  ghost function Inserted(s: World, id: int, weak: WeakRef, proofs: Proofs): World {
    FreshEpoch(s).(
    entries := s.entries[id := Entry(s.nextEpoch, 0, 0, weak, proofs, map[])],
    leaving := s.leaving + Drained(s.entries, {id}))
  }

  ghost function Removed(s: World, id: int): World
    requires id in s.entries
  {
    s.(entries := s.entries - {id}, leaving := s.leaving + Drained(s.entries, {id}))
  }

  /** The entries a reap commit removes: found dead, and still the incarnation that was read. */
  ghost function Reaped(r: World, s: World, dead: set<int>): set<int> {
    set id | id in dead && id in r.entries && id in s.entries && s.entries[id].epoch == r.entries[id].epoch
  }

  ghost function RemovedAll(s: World, ids: set<int>): World
    requires ids <= s.entries.Keys
  {
    s.(entries := s.entries - ids,
    leaving := s.leaving + Drained(s.entries, ids))
  }

  /** Both halves agree on the incarnation and on the direct manager. */
  ghost predicate Current(r: World, s: World, id: int) {
    && id in r.entries && id in s.entries
    && s.entries[id].epoch == r.entries[id].epoch
    && s.entries[id].proofs.direct.manager == r.entries[id].proofs.direct.manager
  }

  /** The admission of a key to a realm; without a hit in the first half there is a candidate pool. */
  ghost function AdmissionOf(r: World, s: World, id: int, realm: RealmId, key: Key, capacity: nat): Admission
    requires Current(r, s, id)
  {
    var hit := key in RealmOf(r.entries[id], realm).pools;
    Admit(RealmOf(s.entries[id], realm), key, if hit then None else Some(s.nextPool), capacity)
  }

  ghost function AdmitCommit(r: World, s: World, id: int, realm: RealmId, key: Key, capacity: nat): World {
    if !Current(r, s, id) then s
    else
      var entry := s.entries[id];
      match AdmissionOf(r, s, id, realm, key, capacity)
      case Panic => s.(poisoned := true)
      case Admitted(after, pool, evicted) =>
        s.(entries := s.entries[id := entry.(realms := entry.realms[realm := after],
          admissions := Wrap(entry.admissions + 1))],
        leaving := s.leaving + multiset(evicted),
        inserted := if key !in RealmOf(entry, realm).pools && capacity > 0 then s.inserted + {pool} else s.inserted,
        nextPool := s.nextPool + 1)
  }

  ghost predicate SameManagers(a: map<int, ManagerRecord>, b: map<int, ManagerRecord>) {
    a.Keys == b.Keys && forall url :: url in a ==> a[url].manager == b[url].manager
  }

  ghost function Updated(proofs: Proofs, update: ProofUpdate): Proofs {
    match update
    case UpdateDirect(pools) => proofs.(direct := proofs.direct.(pools := pools))
    case UpdateProxies(proxies) => proofs.(proxies := proxies)
  }

  ghost predicate RecordCommits(r: World, s: World, id: int, update: ProofUpdate) {
    && Current(r, s, id)
    && s.entries[id].revision == r.entries[id].revision
    && (update.UpdateProxies? ==>
          && SameManagers(s.entries[id].proofs.proxies, r.entries[id].proofs.proxies)
          && (forall url :: url in r.entries[id].proofs.proxies ==>
                url in update.proxies && update.proxies[url].manager == r.entries[id].proofs.proxies[url].manager))
  }

  ghost function RecordCommit(r: World, s: World, id: int, update: ProofUpdate): World {
    if !RecordCommits(r, s, id, update) then s
    else
      var entry := s.entries[id];
      s.(entries := s.entries[id := entry.(proofs := Updated(entry.proofs, update),
        revision := Wrap(entry.revision + 1))])
  }

  ghost predicate CloseCommits(r: World, s: World, id: int) {
    && Current(r, s, id)
    && s.entries[id].admissions == r.entries[id].admissions
    && s.entries[id].revision == r.entries[id].revision
    && SameManagers(s.entries[id].proofs.proxies, r.entries[id].proofs.proxies)
  }

  /** Closing empties the realms, refreshes the proofs and starts a new incarnation under the same id. */
  ghost function CloseCommit(r: World, s: World, id: int, pools: nat, proxyPools: map<int, nat>): World {
    if !CloseCommits(r, s, id) then s
    else
      var entry := s.entries[id];
      var proxies := map url | url in entry.proofs.proxies ::
        if url in proxyPools then entry.proofs.proxies[url].(pools := proxyPools[url]) else entry.proofs.proxies[url];
      FreshEpoch(s).(
      entries := s.entries[id := entry.(epoch := s.nextEpoch, revision := Wrap(entry.revision + 1), realms := map[],
                                        proofs := Proofs(entry.proofs.direct.(pools := pools), proxies))],
      leaving := s.leaving + Drained(s.entries, {id}))
  }

  ghost function ForkReset(s: World): World {
    s.(entries := map[], nextEpoch := 1, abandoned := s.abandoned + s.leaving,
    leaving := Drained(s.entries, s.entries.Keys))
  }

  /** One event in state `s`; `r` is the state its first half read. A poisoned lock refuses every table operation. */
  ghost function Step(r: World, s: World, e: Event): World {
    match e
    case Create(id) => s.(live := s.live[s.nextAdapter := id], nextAdapter := s.nextAdapter + 1)
    case Die(adapter) => s.(live := s.live - {adapter})
    case ClearPool(pool) => s.(leaving := s.leaving - multiset{pool}, cleared := s.cleared + multiset{pool})
    case _ => if s.poisoned then s else TableStep(r, s, e)
  }

  ghost function TableStep(r: World, s: World, e: Event): World {
    match e
    case Register(_, adapter, proofs) =>
      if adapter !in s.live then s
      else
        var id := s.live[adapter];
        if id in r.entries && r.entries[id].weak.target == adapter then s
        else Inserted(s, id, WeakRef(s.nextRef, adapter), proofs).(nextRef := s.nextRef + 1)
    case Drop(id) => if id in s.entries then Removed(s, id) else s
    case DropReference(id, weak) => if id in s.entries && s.entries[id].weak == weak then Removed(s, id) else s
    case Reap(_, dead) => RemovedAll(s, Reaped(r, s, dead.Keys))
    case AdmitPool(_, id, realm, key, capacity) => AdmitCommit(r, s, id, realm, key, capacity)
    case Record(_, id, update) => RecordCommit(r, s, id, update)
    case Close(_, id, pools, proxyPools) => CloseCommit(r, s, id, pools, proxyPools)
    case Fork => ForkReset(s)
    case _ => s
  }

  // ----- runs -----

  ghost function Began(e: Event, n: nat): nat {
    if e.Register? || e.Reap? || e.AdmitPool? || e.Record? || e.Close? then e.began else n
  }

  ghost predicate SameProcess(events: seq<Event>, i: nat, j: nat) {
    forall k :: i <= k < j <= |events| ==> events[k] != Fork
  }

  /** What the caller of event number `n` has seen or holds. */
  ghost predicate Enabled(states: seq<World>, events: seq<Event>, n: nat)
    requires n < |events| < |states|
  {
    var e, s := events[n], states[n];
    && Began(e, n) <= n && SameProcess(events, Began(e, n), n)
    && match e
       case Create(id) => id !in s.live.Values
       case Reap(began, dead) =>
         forall id :: id in dead ==>
           && id in states[began].entries && began <= dead[id] <= n
           && states[began].entries[id].weak.target !in states[dead[id]].live
       case ClearPool(pool) => pool in s.leaving
       case _ => true
  }

  ghost predicate Next(r: World, s: World, e: Event, t: World) { t == Step(r, s, e) }

  /** `states[n]` is the state before event number `n`. Counters are 64 bits wide, so runs are shorter than that. */
  ghost predicate Run(states: seq<World>, events: seq<Event>) {
    && |states| == |events| + 1 && |events| < U64 - 1
    && states[0] == INITIAL
    && forall n :: 0 <= n < |events| ==>
         Enabled(states, events, n) && Next(states[Began(events[n], n)], states[n], events[n], states[n + 1])
  }

  /** The state that the first half of event number `n` read. */
  ghost function ReadBy(states: seq<World>, events: seq<Event>, n: nat): World
    requires Run(states, events) && n < |events|
  {
    assert Enabled(states, events, n);
    states[Began(events[n], n)]
  }

  lemma StepOfRun(states: seq<World>, events: seq<Event>, n: nat)
    requires Run(states, events) && n < |events|
    ensures |states| == |events| + 1 && n < U64 - 2
    ensures states[n + 1] == Step(ReadBy(states, events, n), states[n], events[n])
  {
    hide Step;
    assert Enabled(states, events, n) && Next(states[Began(events[n], n)], states[n], events[n], states[n + 1]);
  }

  // ----- counters -----

  /** After `n` steps no counter has wrapped, and epochs in the table are distinct and already issued. */
  ghost predicate Counters(s: World, n: nat) {
    && 1 <= s.nextEpoch <= n + 1
    && (forall id :: id in s.entries ==>
          s.entries[id].epoch < s.nextEpoch && s.entries[id].admissions <= n && s.entries[id].revision <= n)
    && (forall a, b :: a in s.entries && b in s.entries && s.entries[a].epoch == s.entries[b].epoch ==> a == b)
  }

  lemma WrapSmall(n: nat)
    requires n < U64
    ensures Wrap(n) == n
  {
  }

  /** What may happen to an entry while it stays the same incarnation. */
  ghost predicate Evolves(x: Entry, y: Entry) {
    && y.epoch == x.epoch && y.weak == x.weak && y.proofs.direct.manager == x.proofs.direct.manager
    && x.revision <= y.revision && (x.revision == y.revision ==> x.proofs == y.proofs)
    && x.admissions <= y.admissions && (x.admissions == y.admissions ==> x.realms == y.realms)
  }

  /** The entry an event writes, if it writes one. */
  ghost function Focus(s: World, e: Event): int {
    match e
    case Register(_, adapter, _) => if adapter in s.live then s.live[adapter] else 0
    case AdmitPool(_, id, _, _, _) => id
    case Record(_, id, _) => id
    case Close(_, id, _, _) => id
    case _ => 0
  }

  /** A step keeps or removes every entry but `f`, and lets `f` evolve or start a new incarnation. */
  ghost predicate Change(s: World, t: World, f: int, n: nat) {
    && s.nextEpoch <= t.nextEpoch <= s.nextEpoch + 1
    && (forall id :: id in t.entries && id != f ==> id in s.entries && t.entries[id] == s.entries[id])
    && (f in t.entries ==>
          && t.entries[f].revision <= n + 1 && t.entries[f].admissions <= n + 1
          && ((f in s.entries && Evolves(s.entries[f], t.entries[f]))
              || (t.entries[f].epoch == s.nextEpoch && t.nextEpoch == s.nextEpoch + 1)))
  }

  lemma SmallCounters(s: World, id: int, n: nat)
    requires Counters(s, n) && n < U64 - 2 && id in s.entries
    ensures s.entries[id].admissions <= n && Wrap(s.entries[id].admissions + 1) == s.entries[id].admissions + 1
    ensures s.entries[id].revision <= n && Wrap(s.entries[id].revision + 1) == s.entries[id].revision + 1
    ensures Wrap(s.nextEpoch + 1) == s.nextEpoch + 1
  {
    WrapSmall(s.entries[id].admissions + 1);
    WrapSmall(s.entries[id].revision + 1);
    WrapSmall(s.nextEpoch + 1);
  }

  /** A step that writes one entry. */
  lemma EntryWritten(s: World, t: World, id: int, x: Entry, n: nat)
    requires id in s.entries && t.entries == s.entries[id := x] && x.revision <= n + 1 && x.admissions <= n + 1
    requires if x.epoch == s.nextEpoch then t.nextEpoch == s.nextEpoch + 1
             else t.nextEpoch == s.nextEpoch && Evolves(s.entries[id], x)
    ensures Change(s, t, id, n)
  {
  }

  /** A step that only removes entries. */
  lemma NothingWritten(s: World, t: World, f: int, n: nat)
    requires Counters(s, n) && t.nextEpoch == s.nextEpoch
    requires forall id :: id in t.entries ==> id in s.entries && t.entries[id] == s.entries[id]
    ensures Change(s, t, f, n)
  {
  }

  lemma AdmitChanges(r: World, s: World, id: int, realm: RealmId, key: Key, capacity: nat, n: nat)
    requires Counters(s, n) && n < U64 - 2
    ensures Change(s, AdmitCommit(r, s, id, realm, key, capacity), id, n)
  {
    assert id in s.entries ==> s.entries[id].epoch != s.nextEpoch;
    hide Counters, Change, Wrap, AdmissionOf;
    var t := AdmitCommit(r, s, id, realm, key, capacity);
    if Current(r, s, id) && AdmissionOf(r, s, id, realm, key, capacity).Admitted? {
      SmallCounters(s, id, n);
      EntryWritten(s, t, id, t.entries[id], n);
    } else {
      NothingWritten(s, t, id, n);
    }
  }

  lemma RecordChanges(r: World, s: World, id: int, update: ProofUpdate, n: nat)
    requires Counters(s, n) && n < U64 - 2
    ensures Change(s, RecordCommit(r, s, id, update), id, n)
  {
    assert id in s.entries ==> s.entries[id].epoch != s.nextEpoch;
    hide Counters, Change, Wrap;
    var t := RecordCommit(r, s, id, update);
    if RecordCommits(r, s, id, update) {
      SmallCounters(s, id, n);
      EntryWritten(s, t, id, t.entries[id], n);
    } else {
      NothingWritten(s, t, id, n);
    }
  }

  lemma CloseChanges(r: World, s: World, id: int, pools: nat, proxyPools: map<int, nat>, n: nat)
    requires Counters(s, n) && n < U64 - 2
    ensures Change(s, CloseCommit(r, s, id, pools, proxyPools), id, n)
  {
    hide Counters, Change, Wrap, Drained;
    var t := CloseCommit(r, s, id, pools, proxyPools);
    if CloseCommits(r, s, id) {
      SmallCounters(s, id, n);
      EntryWritten(s, t, id, t.entries[id], n);
    } else {
      NothingWritten(s, t, id, n);
    }
  }

  lemma StepChanges(r: World, s: World, e: Event, n: nat)
    requires Counters(s, n) && n < U64 - 2 && e != Fork
    ensures Change(s, Step(r, s, e), Focus(s, e), n)
  {
    hide AdmitCommit, RecordCommit, CloseCommit, Wrap, Drained, Reaped, Counters, Change;
    match e
    case AdmitPool(_, id, realm, key, capacity) =>
      if s.poisoned { NothingWritten(s, s, id, n); } else { AdmitChanges(r, s, id, realm, key, capacity, n); }
    case Record(_, id, update) =>
      if s.poisoned { NothingWritten(s, s, id, n); } else { RecordChanges(r, s, id, update, n); }
    case Close(_, id, pools, proxyPools) =>
      if s.poisoned { NothingWritten(s, s, id, n); } else { CloseChanges(r, s, id, pools, proxyPools, n); }
    case Register(_, adapter, proofs) =>
      NothingWritten(s, s, Focus(s, e), n);
      if adapter in s.live { InsertChanges(s, s.live[adapter], WeakRef(s.nextRef, adapter), proofs, n); }
    case _ => NothingWritten(s, Step(r, s, e), Focus(s, e), n);
  }

  lemma InsertChanges(s: World, id: int, weak: WeakRef, proofs: Proofs, n: nat)
    requires Counters(s, n) && n < U64 - 2
    ensures Change(s, Inserted(s, id, weak, proofs).(nextRef := s.nextRef + 1), id, n)
  {
    WrapSmall(s.nextEpoch + 1);
    hide Wrap, Drained;
  }

  lemma ChangeCounters(s: World, t: World, f: int, n: nat)
    requires Counters(s, n) && Change(s, t, f, n)
    ensures Counters(t, n + 1)
  {
  }

  lemma {:induction false} ReachableCounters(states: seq<World>, events: seq<Event>, n: nat)
    requires Run(states, events) && n <= |events|
    ensures Counters(states[n], n)
  {
    if n > 0 {
      hide Step;
      var e, s := events[n - 1], states[n - 1];
      assert Enabled(states, events, n - 1) && Next(states[Began(e, n - 1)], s, e, states[n - 1 + 1]);
      ReachableCounters(states, events, n - 1);
      var r := states[Began(e, n - 1)];
      if e == Fork {
        ForkCounters(r, s);
      } else {
        StepChanges(r, s, e, n - 1);
        ChangeCounters(s, Step(r, s, e), Focus(s, e), n - 1);
      }
    }
  }

  lemma ForkCounters(r: World, s: World)
    ensures forall n: nat :: Counters(s, n) ==> Counters(Step(r, s, Fork), n + 1)
  {
  }

  // ----- incarnations -----

  /** The incarnation `x` read under `id` is either still there, evolved, or its epoch is gone for good. */
  ghost predicate Followed(s: World, id: int, x: Entry) {
    && x.epoch < s.nextEpoch
    && forall other :: other in s.entries && s.entries[other].epoch == x.epoch ==>
         other == id && Evolves(x, s.entries[id])
  }

  lemma FollowedStep(s: World, t: World, f: int, n: nat, id: int, x: Entry)
    requires Change(s, t, f, n) && Followed(s, id, x)
    ensures Followed(t, id, x)
    ensures id in t.entries && t.entries[id].epoch == x.epoch ==> id in s.entries && s.entries[id].epoch == x.epoch
  {
  }

  /**
    Incarnation safety under id reuse: if in one process an entry seen under `other` carries the epoch
    that an earlier read found under `id`, then it is that very entry: same id, same adapter
    and manager, counters that only grew, proofs unchanged if the revision is, and realms unchanged if
    the admission count is.
  */
  lemma {:induction false} EpochNamesIncarnation(states: seq<World>, events: seq<Event>, i: nat, j: nat, id: int)
    requires Run(states, events) && i <= j <= |events| && SameProcess(events, i, j)
    requires id in states[i].entries
    ensures Followed(states[j], id, states[i].entries[id])
    ensures id in states[j].entries && states[j].entries[id].epoch == states[i].entries[id].epoch ==>
              forall k :: i <= k <= j ==>
                id in states[k].entries && Evolves(states[i].entries[id], states[k].entries[id])
  {
    ReachableCounters(states, events, i);
    if i < j {
      hide Step, Counters;
      var n := j - 1;
      var e, s := events[n], states[n];
      assert Enabled(states, events, n) && Next(states[Began(e, n)], s, e, states[n + 1]);
      EpochNamesIncarnation(states, events, i, n, id);
      ReachableCounters(states, events, n);
      var r := states[Began(e, n)];
      StepChanges(r, s, e, n);
      FollowedStep(s, states[j], Focus(s, e), n, id, states[i].entries[id]);
    }
  }

  /** A record commit replaces exactly the revision it read: no update is lost or applied twice. */
  lemma RecordReplacesWhatItRead(states: seq<World>, events: seq<Event>, n: nat)
    requires Run(states, events) && n < |events| && events[n].Record? && !states[n].poisoned
    requires RecordCommits(ReadBy(states, events, n), states[n], events[n].id, events[n].update)
    ensures var r, s, id := ReadBy(states, events, n), states[n], events[n].id;
            && s.entries[id].weak == r.entries[id].weak
            && s.entries[id].proofs == r.entries[id].proofs
            && id in states[n + 1].entries
            && states[n + 1].entries[id].proofs == Updated(r.entries[id].proofs, events[n].update)
            && states[n + 1].entries[id].revision == r.entries[id].revision + 1
  {
    var e := events[n];
    assert Enabled(states, events, n);
    EpochNamesIncarnation(states, events, e.began, n, e.id);
    ReachableCounters(states, events, n);
    WrapSmall(states[n].entries[e.id].revision + 1);
    hide Wrap;
    assert Next(states[Began(e, n)], states[n], e, states[n + 1]);
  }

  /**
    A close whose three counters match closes the very entry it read, unchanged; its further
    comparisons of managers can then not fail.
  */
  lemma CloseActsOnWhatItRead(states: seq<World>, events: seq<Event>, n: nat)
    requires Run(states, events) && n < |events| && events[n].Close?
    requires var r, s, id := ReadBy(states, events, n), states[n], events[n].id;
             && id in r.entries && id in s.entries
             && s.entries[id].epoch == r.entries[id].epoch
             && s.entries[id].admissions == r.entries[id].admissions
             && s.entries[id].revision == r.entries[id].revision
    ensures states[n].entries[events[n].id] == ReadBy(states, events, n).entries[events[n].id]
    ensures CloseCommits(ReadBy(states, events, n), states[n], events[n].id)
  {
    assert Enabled(states, events, n);
    EpochNamesIncarnation(states, events, events[n].began, n, events[n].id);
  }

  // ----- reaping -----

  ghost predicate Adapters(s: World) {
    && (forall a :: a in s.live ==> a < s.nextAdapter)
    && (forall id :: id in s.entries ==> s.entries[id].weak.target < s.nextAdapter)
  }

  /** An entry refers to the adapter it did before, or to a live one. */
  lemma TargetsStep(r: World, s: World, e: Event, id: int)
    requires id in Step(r, s, e).entries
    ensures var weak := Step(r, s, e).entries[id].weak;
            (id in s.entries && weak == s.entries[id].weak) || weak.target in s.live
  {
    hide Wrap, Drained, AdmissionOf, SameManagers;
  }

  /** Commits concern entries, not adapters. */
  lemma CommitsKeepLive(r: World, s: World, id: int, realm: RealmId, key: Key, capacity: nat)
    ensures var t := AdmitCommit(r, s, id, realm, key, capacity); t.live == s.live && t.nextAdapter == s.nextAdapter
  {
    hide AdmissionOf, Current, Wrap;
  }

  lemma ClosesKeepLive(r: World, s: World, id: int, pools: nat, proxyPools: map<int, nat>, update: ProofUpdate)
    ensures var t := CloseCommit(r, s, id, pools, proxyPools); t.live == s.live && t.nextAdapter == s.nextAdapter
    ensures var t := RecordCommit(r, s, id, update); t.live == s.live && t.nextAdapter == s.nextAdapter
  {
    hide CloseCommits, RecordCommits, Drained, Wrap, Updated;
  }

  lemma LiveStep(r: World, s: World, e: Event)
    ensures var t := Step(r, s, e);
            && t.nextAdapter == s.nextAdapter + (if e.Create? then 1 else 0)
            && t.live == if e.Create? then s.live[s.nextAdapter := e.id]
                         else if e.Die? then s.live - {e.adapter}
                         else s.live
  {
    hide AdmitCommit, RecordCommit, CloseCommit, Wrap, Drained, Reaped;
    match e
    case AdmitPool(_, id, realm, key, capacity) => CommitsKeepLive(r, s, id, realm, key, capacity);
    case Record(_, id, update) => ClosesKeepLive(r, s, id, 0, map[], update);
    case Close(_, id, pools, proxyPools) => ClosesKeepLive(r, s, id, pools, proxyPools, UpdateDirect(0));
    case _ =>
  }

  lemma AdaptersStep(r: World, s: World, e: Event)
    requires Adapters(s)
    ensures Adapters(Step(r, s, e)) && s.nextAdapter <= Step(r, s, e).nextAdapter
    ensures forall a :: a < s.nextAdapter && a !in s.live ==> a !in Step(r, s, e).live
  {
    hide Step;
    LiveStep(r, s, e);
    var t := Step(r, s, e);
    forall id | id in t.entries ensures t.entries[id].weak.target < t.nextAdapter { TargetsStep(r, s, e, id); }
  }

  lemma {:induction false} ReachableAdapters(states: seq<World>, events: seq<Event>, n: nat)
    requires Run(states, events) && n <= |events|
    ensures Adapters(states[n])
  {
    if n > 0 {
      hide Step;
      var e := events[n - 1];
      assert Enabled(states, events, n - 1) && Next(states[Began(e, n - 1)], states[n - 1], e, states[n - 1 + 1]);
      ReachableAdapters(states, events, n - 1);
      AdaptersStep(states[Began(e, n - 1)], states[n - 1], e);
    }
  }

  lemma {:induction false} DeadStaysDead(states: seq<World>, events: seq<Event>, i: nat, j: nat, adapter: nat)
    requires Run(states, events) && i <= j <= |events|
    requires adapter < states[i].nextAdapter && adapter !in states[i].live
    ensures adapter < states[j].nextAdapter && adapter !in states[j].live
  {
    if i < j {
      hide Step;
      var n := j - 1;
      var e := events[n];
      assert Enabled(states, events, n) && Next(states[Began(e, n)], states[n], e, states[n + 1]);
      DeadStaysDead(states, events, i, n, adapter);
      ReachableAdapters(states, events, n);
      AdaptersStep(states[Began(e, n)], states[n], e);
    }
  }

  /** A reap never removes the entry of a live adapter, however its id was reused meanwhile. */
  lemma LiveNeverReaped(states: seq<World>, events: seq<Event>, n: nat, id: int)
    requires Run(states, events) && n < |events| && events[n].Reap?
    requires id in states[n].entries && states[n].entries[id].weak.target in states[n].live
    ensures id in states[n + 1].entries && states[n + 1].entries[id] == states[n].entries[id]
  {
    var e, s := events[n], states[n];
    assert Enabled(states, events, n) && Next(states[Began(e, n)], s, e, states[n + 1]);
    var r := states[e.began];
    if id in Reaped(r, s, e.dead.Keys) {
      EpochNamesIncarnation(states, events, e.began, n, id);
      var target := r.entries[id].weak.target;
      ReachableAdapters(states, events, e.began);
      AdapterIssued(states, events, e.began, e.dead[id], target);
      DeadStaysDead(states, events, e.dead[id], n, target);
    }
  }

  lemma {:induction false} AdapterIssued(states: seq<World>, events: seq<Event>, i: nat, j: nat, adapter: nat)
    requires Run(states, events) && i <= j <= |events| && adapter < states[i].nextAdapter
    ensures adapter < states[j].nextAdapter
  {
    if i < j {
      hide Step;
      var n := j - 1;
      var e := events[n];
      assert Enabled(states, events, n) && Next(states[Began(e, n)], states[n], e, states[n + 1]);
      AdapterIssued(states, events, i, n, adapter);
      ReachableAdapters(states, events, n);
      AdaptersStep(states[Began(e, n)], states[n], e);
    }
  }

  // ----- pool conservation -----

  ghost function Residents(entries: map<int, Entry>): set<Pool> { PoolsUnder(entries, entries.Keys) }

  /** Within an entry every pool has one slot in one realm. */
  ghost predicate Placed(entry: Entry) {
    && (forall r :: r in entry.realms ==> Injective(entry.realms[r].pools))
    && (forall q, r :: q in entry.realms && r in entry.realms && q != r ==>
          Values(entry.realms[q].pools) !! Values(entry.realms[r].pools))
  }

  /** Every resident pool sits in exactly one slot of one entry. */
  ghost predicate Placement(entries: map<int, Entry>) {
    && (forall id :: id in entries ==> Placed(entries[id]))
    && (forall a, b :: a in entries && b in entries && a != b ==> PoolsOf(entries[a]) !! PoolsOf(entries[b]))
  }

  /**
    The accounts: a pool ever inserted is resident, or listed for clearing once, or was cleared once, or its
    one clearing was abandoned; any other pool is nowhere.
  */
  ghost predicate Ledger(s: World) {
    && (forall p :: (if p in Residents(s.entries) then 1 else 0) + s.leaving[p] + s.cleared[p] + s.abandoned[p]
                    == if p in s.inserted then 1 else 0)
    && (forall p :: p in s.inserted ==> p < s.nextPool)
  }

  ghost predicate Conserved(s: World) { Placement(s.entries) && Ledger(s) }

  /** The accounts of a step that moves `gone` from the table to the leaving set and inserts `added`. */
  lemma LedgerMoves(s: World, t: World, gone: set<Pool>, added: set<Pool>)
    requires Ledger(s)
    requires gone <= Residents(s.entries) && Residents(t.entries) == Residents(s.entries) - gone + added
    requires added !! s.inserted && t.inserted == s.inserted + added
    requires t.leaving == s.leaving + multiset(gone) && t.cleared == s.cleared && t.abandoned == s.abandoned
    requires s.nextPool <= t.nextPool && forall p :: p in added ==> p < t.nextPool
    ensures Ledger(t)
  {
    hide Residents;
  }

  lemma {:induction false} ListedCounts(entries: map<int, Entry>, slots: set<Slot>, p: Pool)
    requires forall x :: x in slots ==> Occupied(entries, x)
    ensures Listed(entries, slots)[p] == |set x | x in slots && PoolAt(entries, x) == p|
  {
    hide Occupied, PoolAt;
    if slots != {} {
      var x := Pick(slots);
      ListedCounts(entries, slots - {x}, p);
      var rest := set y | y in slots - {x} && PoolAt(entries, y) == p;
      assert (set y | y in slots && PoolAt(entries, y) == p) == if PoolAt(entries, x) == p then rest + {x} else rest;
    }
  }

  lemma SlotUnique(entries: map<int, Entry>, x: Slot, y: Slot)
    requires Placement(entries) && Occupied(entries, x) && Occupied(entries, y)
    requires PoolAt(entries, x) == PoolAt(entries, y)
    ensures x == y
  {
    var p := PoolAt(entries, x);
    assert p in PoolsOf(entries[x.id]) && p in PoolsOf(entries[y.id]);
    assert Placed(entries[x.id]);
    assert p in Values(entries[x.id].realms[x.realm].pools) && p in Values(entries[y.id].realms[y.realm].pools);
  }

  /** Where every pool has one slot, a removal lists each removed pool once. */
  lemma DrainedOnce(entries: map<int, Entry>, ids: set<int>)
    requires Placement(entries)
    ensures Drained(entries, ids) == multiset(PoolsUnder(entries, ids))
  {
    hide Placement, Listed;
    var slots := SlotsUnder(entries, ids);
    forall p ensures Drained(entries, ids)[p] == multiset(PoolsUnder(entries, ids))[p] {
      ListedCounts(entries, slots, p);
      var holding := set x | x in slots && PoolAt(entries, x) == p;
      if p in PoolsUnder(entries, ids) {
        var id :| id in ids && id in entries && p in PoolsOf(entries[id]);
        var r, k :| r in entries[id].realms && k in entries[id].realms[r].pools && entries[id].realms[r].pools[k] == p;
        var x := Slot(id, r, k);
        forall y | y in holding ensures y == x { SlotUnique(entries, x, y); }
        assert holding == {x};
      } else {
        forall x | x in slots ensures PoolAt(entries, x) != p { assert PoolAt(entries, x) in PoolsOf(entries[x.id]); }
        assert holding == {};
      }
    }
  }

  lemma WithoutEntries(entries: map<int, Entry>, ids: set<int>)
    requires Placement(entries)
    ensures Placement(entries - ids)
    ensures Residents(entries - ids) == Residents(entries) - PoolsUnder(entries, ids)
    ensures PoolsUnder(entries, ids) <= Residents(entries)
  {
    var rest := entries - ids;
    hide PoolsOf, Placed;
    forall p | p in Residents(entries) && p !in PoolsUnder(entries, ids) ensures p in Residents(rest) {
      var id :| id in entries && p in PoolsOf(entries[id]);
      assert id in rest && p in PoolsOf(rest[id]);
    }
    forall p | p in Residents(rest) ensures p in Residents(entries) && p !in PoolsUnder(entries, ids) {
      var id :| id in rest && p in PoolsOf(rest[id]);
      assert forall other :: other in ids && other in entries ==> PoolsOf(entries[other]) !! PoolsOf(entries[id]);
    }
  }

  lemma WithEntry(entries: map<int, Entry>, id: int, entry: Entry)
    requires Placement(entries) && id !in entries && Placed(entry) && PoolsOf(entry) !! Residents(entries)
    ensures Placement(entries[id := entry])
    ensures Residents(entries[id := entry]) == Residents(entries) + PoolsOf(entry)
  {
    var all := entries[id := entry];
    hide PoolsOf, Placed;
    forall p | p in Residents(all) ensures p in Residents(entries) + PoolsOf(entry) {
      var i :| i in all && p in PoolsOf(all[i]);
      if i != id { assert i in entries; }
    }
    forall p | p in Residents(entries) + PoolsOf(entry) ensures p in Residents(all) {
      if p in PoolsOf(entry) {
        assert p in PoolsOf(all[id]);
      } else {
        var i :| i in entries && p in PoolsOf(entries[i]);
        assert p in PoolsOf(all[i]);
      }
    }
    forall a, b | a in all && b in all && a != b ensures PoolsOf(all[a]) !! PoolsOf(all[b]) {
      if a == id { assert PoolsOf(all[b]) <= Residents(entries); }
      if b == id { assert PoolsOf(all[a]) <= Residents(entries); }
    }
  }

  /** Replacing the entry under `id`: its old pools that the new entry does not hold are gone. */
  lemma Replaced(entries: map<int, Entry>, id: int, entry: Entry, gone: set<Pool>, added: set<Pool>)
    requires Placement(entries) && id in entries && Placed(entry)
    requires gone <= PoolsOf(entries[id]) && PoolsOf(entry) == PoolsOf(entries[id]) - gone + added
    requires added !! Residents(entries)
    ensures Placement(entries[id := entry])
    ensures gone <= Residents(entries)
    ensures Residents(entries[id := entry]) == Residents(entries) - gone + added
  {
    WithoutEntries(entries, {id});
    var rest := entries - {id};
    assert PoolsUnder(entries, {id}) == PoolsOf(entries[id]) by { hide PoolsOf; }
    hide PoolsOf, Placed, Placement, PoolsUnder;
    WithEntry(rest, id, entry);
    assert rest[id := entry] == entries[id := entry];
  }

  lemma EmptyEntry(entry: Entry)
    requires entry.realms == map[]
    ensures Placed(entry) && PoolsOf(entry) == {}
  {
  }

  /** The pools of an entry, realm by realm. */
  lemma PoolsOfRealms(entry: Entry)
    ensures forall r :: r in entry.realms ==> Values(entry.realms[r].pools) <= PoolsOf(entry)
    ensures forall p :: p in PoolsOf(entry) <==> exists r :: r in entry.realms && p in Values(entry.realms[r].pools)
  {
    forall p | p in PoolsOf(entry) ensures exists r :: r in entry.realms && p in Values(entry.realms[r].pools) {
      var r, k :| r in entry.realms && k in entry.realms[r].pools && entry.realms[r].pools[k] == p;
      assert p in Values(entry.realms[r].pools);
    }
  }

  lemma RealmsReplaced(entry: Entry, next: Entry, id: RealmId, after: Realm, gone: set<Pool>, added: set<Pool>)
    requires next.realms == entry.realms[id := after] && Placed(entry)
    requires gone <= Values(RealmOf(entry, id).pools)
    requires Values(after.pools) == Values(RealmOf(entry, id).pools) - gone + added
    ensures PoolsOf(next) == PoolsOf(entry) - gone + added && gone <= PoolsOf(entry)
  {
    PoolsOfRealms(entry);
    PoolsOfRealms(next);
    assert id !in entry.realms ==> Values(RealmOf(entry, id).pools) == {};
    hide PoolsOf, Injective, Values;
    forall p ensures p in PoolsOf(next) <==> p in PoolsOf(entry) - gone + added {
      if p in PoolsOf(next) {
        var r :| r in next.realms && p in Values(next.realms[r].pools);
        if r != id { assert p in Values(entry.realms[r].pools); }
      }
      if p in PoolsOf(entry) && p !in gone {
        var r :| r in entry.realms && p in Values(entry.realms[r].pools);
        if r != id { assert p in Values(next.realms[r].pools); } else { assert p in Values(next.realms[id].pools); }
      }
      if p in added { assert p in Values(next.realms[id].pools); }
    }
  }

  /** Changing one realm changes the pools of the entry by what that realm lost and gained. */
  lemma RealmReplaced(entry: Entry, next: Entry, id: RealmId, after: Realm, gone: set<Pool>, added: set<Pool>)
    requires next.realms == entry.realms[id := after]
    requires Placed(entry) && Injective(after.pools)
    requires gone <= Values(RealmOf(entry, id).pools) && added !! PoolsOf(entry)
    requires Values(after.pools) == Values(RealmOf(entry, id).pools) - gone + added
    ensures Placed(next) && PoolsOf(next) == PoolsOf(entry) - gone + added && gone <= PoolsOf(entry)
  {
    PoolsOfRealms(entry);
    assert id !in entry.realms ==> Values(RealmOf(entry, id).pools) == {};
    hide PoolsOf, Injective, Values;
    RealmsReplaced(entry, next, id, after, gone, added);
    forall r | r in entry.realms && r != id ensures Values(after.pools) !! Values(entry.realms[r].pools) {
      assert Values(entry.realms[r].pools) <= PoolsOf(entry);
    }
  }

  lemma ResidentEntry(s: World, id: int)
    requires Conserved(s) && id in s.entries
    ensures Placed(s.entries[id]) && PoolsOf(s.entries[id]) <= Residents(s.entries)
    ensures Residents(s.entries) <= s.inserted && s.nextPool !in s.inserted
  {
    hide PoolsOf, Placed;
  }

  lemma ResidentRealm(s: World, id: int, realm: RealmId)
    requires Conserved(s) && id in s.entries
    ensures Injective(RealmOf(s.entries[id], realm).pools)
  {
    assert Placed(s.entries[id]);
    hide PoolsOf;
  }

  /** An admission to one entry: the evicted pools leave it, and on a miss the candidate joins. */
  lemma AdmitEntry(entry: Entry, next: Entry, realm: RealmId, key: Key, candidate: Option<Pool>, capacity: nat)
    requires Placed(entry) && (candidate.Some? ==> candidate.value !in PoolsOf(entry))
    requires Admit(RealmOf(entry, realm), key, candidate, capacity).Admitted?
    requires next.realms == entry.realms[realm := Admit(RealmOf(entry, realm), key, candidate, capacity).realm]
    ensures var gone := Elements(Admit(RealmOf(entry, realm), key, candidate, capacity).evicted);
            var added := if key !in RealmOf(entry, realm).pools && capacity > 0 then {candidate.value} else {};
            && Placed(next) && gone <= PoolsOf(entry) && PoolsOf(next) == PoolsOf(entry) - gone + added
            && NoRepeats(Admit(RealmOf(entry, realm), key, candidate, capacity).evicted)
  {
    var before := RealmOf(entry, realm);
    var a := Admit(before, key, candidate, capacity);
    PoolsOfRealms(entry);
    assert Injective(before.pools) && Values(before.pools) <= PoolsOf(entry);
    hide PoolsOf, Values, Injective, Elements;
    AdmitValues(before, key, candidate, capacity);
    var added := if key !in before.pools && capacity > 0 then {candidate.value} else {};
    hide Admit;
    RealmReplaced(entry, next, realm, a.realm, Elements(a.evicted), added);
  }

  ghost function Candidate(r: World, s: World, id: int, realm: RealmId, key: Key): Option<Pool>
    requires id in r.entries
  {
    if key in RealmOf(r.entries[id], realm).pools then None else Some(s.nextPool)
  }

  lemma AdmitShape(r: World, s: World, id: int, realm: RealmId, key: Key, capacity: nat)
    requires Current(r, s, id) && AdmissionOf(r, s, id, realm, key, capacity).Admitted?
    ensures var t := AdmitCommit(r, s, id, realm, key, capacity);
            var before := RealmOf(s.entries[id], realm);
            var a := Admit(before, key, Candidate(r, s, id, realm, key), capacity);
            && a.Admitted? && id in t.entries && t.entries == s.entries[id := t.entries[id]]
            && t.entries[id].realms == s.entries[id].realms[realm := a.realm]
            && (key !in before.pools ==> Candidate(r, s, id, realm, key) == Some(s.nextPool))
            && t.inserted == s.inserted + (if key !in before.pools && capacity > 0 then {s.nextPool} else {})
            && t.leaving == s.leaving + multiset(a.evicted)
            && t.cleared == s.cleared && t.abandoned == s.abandoned && t.nextPool == s.nextPool + 1
  {
    hide Elements, RealmOf, Wrap, Evict;
  }

  lemma AdmitConserves(r: World, s: World, id: int, realm: RealmId, key: Key, capacity: nat)
    requires Conserved(s)
    ensures Conserved(AdmitCommit(r, s, id, realm, key, capacity))
  {
    if Current(r, s, id) && AdmissionOf(r, s, id, realm, key, capacity).Admitted? {
      hide AdmitCommit, PoolsOf, Placed, Placement, Elements, Residents, RealmOf, Admit;
      var t := AdmitCommit(r, s, id, realm, key, capacity);
      var before := RealmOf(s.entries[id], realm);
      var candidate := Candidate(r, s, id, realm, key);
      AdmitShape(r, s, id, realm, key, capacity);
      var gone := Elements(Admit(before, key, candidate, capacity).evicted);
      var added := if key !in before.pools && capacity > 0 then {s.nextPool} else {};
      ResidentEntry(s, id);
      AdmitEntry(s.entries[id], t.entries[id], realm, key, candidate, capacity);
      ListedOnce(Admit(before, key, candidate, capacity).evicted);
      Replaced(s.entries, id, t.entries[id], gone, added);
      LedgerMoves(s, t, gone, added);
    }
  }

  lemma RemovalConserves(s: World, ids: set<int>)
    requires Conserved(s) && ids <= s.entries.Keys
    ensures Conserved(RemovedAll(s, ids))
  {
    hide PoolsOf, Placement, Residents, PoolsUnder, Drained;
    WithoutEntries(s.entries, ids);
    DrainedOnce(s.entries, ids);
    LedgerMoves(s, RemovedAll(s, ids), PoolsUnder(s.entries, ids), {});
  }

  lemma SingleRemoval(s: World, id: int)
    requires id in s.entries
    ensures Removed(s, id) == RemovedAll(s, {id})
  {
    hide Drained;
  }

  lemma PoolsUnderOne(entries: map<int, Entry>, id: int)
    ensures PoolsUnder(entries, {id}) == if id in entries then PoolsOf(entries[id]) else {}
  {
    hide PoolsOf;
  }

  lemma InsertConserves(s: World, id: int, weak: WeakRef, proofs: Proofs)
    requires Conserved(s)
    ensures Conserved(Inserted(s, id, weak, proofs))
  {
    hide PoolsOf, PoolsUnder, Placement, Residents, Placed, Drained, Ledger;
    var t := Inserted(s, id, weak, proofs);
    EmptyEntry(t.entries[id]);
    var gone := if id in s.entries then PoolsOf(s.entries[id]) else {};
    DrainedOnce(s.entries, {id});
    PoolsUnderOne(s.entries, id);
    if id in s.entries {
      Replaced(s.entries, id, t.entries[id], gone, {});
    } else {
      WithEntry(s.entries, id, t.entries[id]);
    }
    LedgerMoves(s, t, gone, {});
  }

  lemma RecordConserves(r: World, s: World, id: int, update: ProofUpdate)
    requires Conserved(s)
    ensures Conserved(RecordCommit(r, s, id, update))
  {
    var t := RecordCommit(r, s, id, update);
    if id in t.entries && id in s.entries {
      SameRealms(s.entries[id], t.entries[id]);
      if RecordCommits(r, s, id, update) {
        ResidentEntry(s, id);
        hide PoolsOf, Placement, Residents, Placed, Wrap, RecordCommits;
        Replaced(s.entries, id, t.entries[id], {}, {});
        LedgerMoves(s, t, {}, {});
      }
    }
  }

  lemma SameRealms(x: Entry, y: Entry)
    requires x.realms == y.realms
    ensures PoolsOf(x) == PoolsOf(y) && (Placed(x) <==> Placed(y))
  {
  }

  lemma CloseConserves(r: World, s: World, id: int, pools: nat, proxyPools: map<int, nat>)
    requires Conserved(s)
    ensures Conserved(CloseCommit(r, s, id, pools, proxyPools))
  {
    var t := CloseCommit(r, s, id, pools, proxyPools);
    if CloseCommits(r, s, id) {
      EmptyEntry(t.entries[id]);
      var gone := PoolsOf(s.entries[id]);
      DrainedOnce(s.entries, {id});
      PoolsUnderOne(s.entries, id);
      hide PoolsOf, PoolsUnder, Placement, Residents, Placed, Wrap, CloseCommits, Drained, Ledger;
      Replaced(s.entries, id, t.entries[id], gone, {});
      LedgerMoves(s, t, gone, {});
    }
  }

  lemma ForkConserves(s: World)
    requires Conserved(s)
    ensures Conserved(ForkReset(s))
  {
    DrainedOnce(s.entries, s.entries.Keys);
    hide Drained, PoolsOf;
  }

  lemma ClearConserves(r: World, s: World, pool: Pool)
    requires Conserved(s) && pool in s.leaving
    ensures Conserved(Step(r, s, ClearPool(pool)))
  {
    var t := Step(r, s, ClearPool(pool));
    hide Placement, Residents;
  }

  lemma StepConserves(r: World, s: World, e: Event)
    requires Conserved(s) && (e.ClearPool? ==> e.pool in s.leaving)
    ensures Conserved(Step(r, s, e))
  {
    hide Placement, AdmitCommit, RecordCommit, CloseCommit, Residents, PoolsOf, PoolsUnder, Drained, ForkReset;
    match e
    case ClearPool(pool) => ClearConserves(r, s, pool);
    case Register(_, adapter, proofs) =>
      if adapter in s.live { InsertConserves(s, s.live[adapter], WeakRef(s.nextRef, adapter), proofs); }
    case Drop(id) => if id in s.entries { SingleRemoval(s, id); RemovalConserves(s, {id}); }
    case DropReference(id, _) => if id in s.entries { SingleRemoval(s, id); RemovalConserves(s, {id}); }
    case Reap(_, dead) => RemovalConserves(s, Reaped(r, s, dead.Keys));
    case AdmitPool(_, id, realm, key, capacity) => AdmitConserves(r, s, id, realm, key, capacity);
    case Record(_, id, update) => RecordConserves(r, s, id, update);
    case Close(_, id, pools, proxyPools) => CloseConserves(r, s, id, pools, proxyPools);
    case Fork => ForkConserves(s);
    case _ =>
  }

  lemma {:induction false} ReachableConserved(states: seq<World>, events: seq<Event>, n: nat)
    requires Run(states, events) && n <= |events|
    ensures Conserved(states[n])
  {
    if n > 0 {
      hide Step, Conserved;
      var e := events[n - 1];
      assert Enabled(states, events, n - 1) && Next(states[Began(e, n - 1)], states[n - 1], e, states[n - 1 + 1]);
      ReachableConserved(states, events, n - 1);
      StepConserves(states[Began(e, n - 1)], states[n - 1], e);
    }
  }

  /**
    Pool conservation: in every reachable state a pool that was ever inserted occupies one slot of the table and
    was never listed for clearing, or is listed for clearing exactly once, or has been cleared exactly once (or a
    fork left its one clearing to a thread that does not exist in the child). So once it has left the table and
    its own clearing is done, it was cleared exactly once, whatever else is pending.
  */
  lemma PoolConservation(states: seq<World>, events: seq<Event>, n: nat, p: Pool)
    requires Run(states, events) && n <= |events| && p in states[n].inserted
    ensures var s := states[n];
            && Placement(s.entries)
            && (if p in Residents(s.entries) then 1 else 0) + s.leaving[p] + s.cleared[p] + s.abandoned[p] == 1
            && (p !in Residents(s.entries) && p !in s.leaving && p !in s.abandoned ==> s.cleared[p] == 1)
  {
    ReachableConserved(states, events, n);
    hide Placement, Residents;
  }

  // ----- the admission that panics -----

  /**
    The `expect` on the candidate fails exactly when the first half found the key resident, the second
    half does not, and the entry is still the same incarnation; a panic poisons the lock.
  */
  lemma AdmissionPanics(r: World, s: World, e: Event)
    requires e.AdmitPool? && !s.poisoned
    ensures Step(r, s, e).poisoned <==>
              && Current(r, s, e.id)
              && e.key in RealmOf(r.entries[e.id], e.realm).pools
              && e.key !in RealmOf(s.entries[e.id], e.realm).pools
  {
    hide Evict;
  }

  /** Once poisoned, the table never changes again. */
  lemma {:induction false} PoisonIsFinal(states: seq<World>, events: seq<Event>, i: nat, j: nat)
    requires Run(states, events) && i <= j <= |events| && states[i].poisoned
    ensures states[j].poisoned && states[j].entries == states[i].entries
  {
    if i < j {
      PoisonIsFinal(states, events, i, j - 1);
      assert Next(states[Began(events[j - 1], j - 1)], states[j - 1], events[j - 1], states[j - 1 + 1]) by {
        assert Enabled(states, events, j - 1);
      }
    }
  }

  /** An admission of another key to a full realm of capacity one takes the only resident key away. */
  lemma OnlyKeyEvicted(key: Key, pool: Pool, other: Key, candidate: Pool)
    requires key != other
    ensures Admit(Realm(map[key := pool], [key]), other, Some(candidate), 1)
            == Admitted(Realm(map[other := candidate], [other]), candidate, [pool])
  {
    var before := Realm(map[key := pool], [key]);
    assert |before.pools| == 1;
    assert Realm(before.pools - {key}, before.order[1..]) == EMPTY;
    assert Evict(EMPTY, 1) == (EMPTY, []);
    var none: seq<Pool> := [];
    assert [pool] + none == [pool];
    assert Evict(before, 1) == (EMPTY, [pool]);
  }

  /** In any state with a full realm of capacity one, two interleaved admissions poison the lock. */
  lemma RaceToPanic(s: World, id: int, key: Key, pool: Pool, other: Key, began: nat)
    requires !s.poisoned && id in s.entries && key != other
    requires RealmOf(s.entries[id], Direct) == Realm(map[key := pool], [key])
    ensures var t := Step(s, s, AdmitPool(began, id, Direct, other, 1));
            !t.poisoned && Step(s, t, AdmitPool(began, id, Direct, key, 1)).poisoned
  {
    OnlyKeyEvicted(key, pool, other, s.nextPool);
    hide Evict, Admit, Wrap;
    var t := Step(s, s, AdmitPool(began, id, Direct, other, 1));
    assert RealmOf(t.entries[id], Direct) == Realm(map[other := s.nextPool], [other]);
    AdmissionPanics(s, t, AdmitPool(began, id, Direct, key, 1));
  }

  lemma FirstAdmission(s: World, id: int, key: Key, began: nat)
    requires !s.poisoned && id in s.entries && s.entries[id].realms == map[]
    ensures var t := Step(s, s, AdmitPool(began, id, Direct, key, 1));
            !t.poisoned && id in t.entries && RealmOf(t.entries[id], Direct) == Realm(map[key := s.nextPool], [key])
  {
    assert Admit(EMPTY, key, Some(s.nextPool), 1) == Admitted(Realm(map[key := s.nextPool], [key]), s.nextPool, []);
    hide Evict, Admit, Wrap;
  }

  lemma FirstRegistration(proofs: Proofs, id: int)
    ensures var s := Step(INITIAL, INITIAL, Create(id));
            var t := Step(s, s, Register(1, 0, proofs));
            !t.poisoned && t.entries.Keys == {id} && t.entries[id].realms == map[]
  {
    hide Wrap;
  }

  /** The panic is reachable from the empty table. */
  lemma PanicIsReachable(id: int, key: Key, other: Key, proofs: Proofs) returns (states: seq<World>, events: seq<Event>)
    requires key != other
    ensures Run(states, events) && states[|events|].poisoned
  {
    hide Step;
    var e0, e1, e2 := Create(id), Register(1, 0, proofs), AdmitPool(2, id, Direct, key, 1);
    var e3, e4 := AdmitPool(3, id, Direct, other, 1), AdmitPool(3, id, Direct, key, 1);
    var s0 := INITIAL;
    var s1 := Step(s0, s0, e0);
    var s2 := Step(s1, s1, e1);
    var s3 := Step(s2, s2, e2);
    var s4 := Step(s3, s3, e3);
    var s5 := Step(s3, s4, e4);
    FirstRegistration(proofs, id);
    FirstAdmission(s2, id, key, 2);
    RaceToPanic(s3, id, key, s2.nextPool, other, 3);
    states, events := [s0, s1, s2, s3, s4, s5], [e0, e1, e2, e3, e4];
    assert Enabled(states, events, 0) && Enabled(states, events, 1) && Enabled(states, events, 2);
    assert Enabled(states, events, 3) && Enabled(states, events, 4);
    assert Next(s0, s0, e0, s1) && Next(s1, s1, e1, s2) && Next(s2, s2, e2, s3) && Next(s3, s3, e3, s4)
      && Next(s3, s4, e4, s5);
  }
}
