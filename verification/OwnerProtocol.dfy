/**
  The owner access / transition / registration protocol of the public facade.

  Every block under the registry lock is one atomic event. `Protocol` is the abstract state: the
  open `owner_access` and `owner_transition` contexts as multisets, plus reservations, activity
  epochs and facade entries. `Step` gives the meaning of each event, and a run is any sequence of
  events, so the theorems hold for every interleaving of threads. `OwnerRegistry` below is the
  lock-protected dictionaries themselves, proved to refine `Step`.
*/
module OwnerProtocol {
  import opened Prelude

  datatype Context = Context(key: int, thread: int)

  /** `token` stands for the identity of the reservation object. */
  datatype Reservation = Reservation(token: nat, epoch: nat, thread: int, depth: nat)

  datatype Entry = Entry(reference: int, generation: nat, poolGeneration: nat)

  datatype Protocol = Protocol(
    accesses: multiset<Context>,
    transitions: multiset<Context>,
    reservations: map<int, Reservation>,
    epochs: map<int, nat>,
    entries: map<int, Entry>,
    nextEpoch: nat,
    nextToken: nat)

  datatype Event =
    | AccessEnter(key: int, thread: int)
    | AccessExit(key: int, thread: int)
    | TransitionEnter(key: int, thread: int)
    | TransitionExit(key: int, thread: int)
    | Begin(key: int, thread: int)
    | Clear(key: int, reservation: Reservation)
    | Commit(key: int, reservation: Reservation, reference: int, entry: Option<Entry>)
    | AdmitCheck(key: int)
    | CloseReference(key: int, reference: int)
    | Fork

  const INITIAL := Protocol(multiset{}, multiset{}, map[], map[], map[], 1, 0)

  /** No context of `key` is open. */
  ghost predicate Idle(open: multiset<Context>, key: int) {
    forall thread :: Context(key, thread) !in open
  }

  /** The value `owner_access` yields to its caller. */
  ghost predicate Allowed(s: Protocol, key: int) {
    Idle(s.transitions, key) && key !in s.reservations
  }

  /** The reservation `_begin_adapter_registration` makes, if it makes one. */
  ghost function Reserve(s: Protocol, key: int, thread: int): Option<Reservation> {
    if key in s.reservations || !Idle(s.transitions, key) then None
    else if exists other :: other != thread && Context(key, other) in s.accesses then None
    else Some(Reservation(s.nextToken, s.nextEpoch, thread, s.accesses[Context(key, thread)]))
  }

  /** The check `_register_adapter_reference` makes before it installs the entry. */
  ghost predicate Commits(s: Protocol, key: int, r: Reservation) {
    && key in s.reservations && s.reservations[key] == r
    && key in s.epochs && s.epochs[key] == r.epoch
    && Idle(s.transitions, key)
    && s.accesses[Context(key, r.thread)] == r.depth
    && (forall other :: other != r.thread ==> Context(key, other) !in s.accesses)
  }

  /** Activity on a key with an outstanding reservation is recorded by a fresh epoch. */
  ghost function Disturb(s: Protocol, key: int): Protocol {
    if key in s.reservations then s.(epochs := s.epochs[key := s.nextEpoch], nextEpoch := s.nextEpoch + 1) else s
  }

  ghost function Step(s: Protocol, e: Event): Protocol {
    match e
    case AccessEnter(key, thread) =>
      Disturb(s, key).(accesses := s.accesses + multiset{Context(key, thread)})
    case AccessExit(key, thread) => s.(accesses := s.accesses - multiset{Context(key, thread)})
    case TransitionEnter(key, thread) =>
      Disturb(s, key).(transitions := s.transitions + multiset{Context(key, thread)})
    case TransitionExit(key, thread) => s.(transitions := s.transitions - multiset{Context(key, thread)})
    case Begin(key, thread) =>
      var r := Reserve(s, key, thread);
      if r.None? then Disturb(s, key)
      else s.(reservations := s.reservations[key := r.value], epochs := s.epochs[key := r.value.epoch],
              nextEpoch := s.nextEpoch + 1, nextToken := s.nextToken + 1)
    case Clear(key, r) => if key in s.reservations && s.reservations[key] == r then Release(s, key) else s
    case Commit(key, r, reference, entry) =>
      if Commits(s, key, r) then
        Release(s, key).(entries := if entry.Some? then s.entries[key := entry.value] else s.entries)
      else s.(entries := Forget(s.entries, key, reference))
    case AdmitCheck(key) => Disturb(s, key)
    case CloseReference(key, reference) => s.(entries := Forget(s.entries, key, reference))
    case Fork => INITIAL.(nextToken := s.nextToken)
  }

  ghost function Release(s: Protocol, key: int): Protocol {
    s.(reservations := s.reservations - {key}, epochs := s.epochs - {key})
  }

  function Forget(entries: map<int, Entry>, key: int, reference: int): map<int, Entry> {
    if key in entries && entries[key].reference == reference then entries - {key} else entries
  }

  /** A whole run: `states[n]` is the state before event number `n`. */
  ghost predicate Run(states: seq<Protocol>, events: seq<Event>) {
    && |states| == |events| + 1
    && states[0] == INITIAL
    && forall n :: 0 <= n < |events| ==> Next(states[n], events[n], states[n + 1])
  }

  ghost predicate Next(s: Protocol, e: Event, t: Protocol) { t == Step(s, e) }

  // ----- invariant -----

  /** A reservation's token and the current epoch of its key were issued before. */
  ghost predicate Inv(s: Protocol, key: int) {
    key in s.reservations ==>
      && s.reservations[key].token < s.nextToken
      && key in s.epochs && s.reservations[key].epoch <= s.epochs[key] < s.nextEpoch
  }

  lemma InvStep(s: Protocol, e: Event, key: int)
    requires Inv(s, key)
    ensures Inv(Step(s, e), key)
  {
    hide Idle, Commits;
    if e.Begin? { InvBegin(s, e.key, e.thread, key); }
  }

  lemma InvBegin(s: Protocol, k: int, thread: int, key: int)
    requires Inv(s, key)
    ensures Inv(Step(s, Begin(k, thread)), key)
  {
    hide Idle;
  }

  lemma {:induction false} ReachableInv(states: seq<Protocol>, events: seq<Event>, n: nat, key: int)
    requires Run(states, events) && n <= |events|
    ensures Inv(states[n], key)
  {
    if n > 0 {
      ReachableInv(states, events, n - 1, key);
      InvStep(states[n - 1], events[n - 1], key);
    }
  }

  /** Epochs are kept for outstanding reservations and for nothing else. */
  lemma {:induction false} EpochsOfReservations(states: seq<Protocol>, events: seq<Event>, n: nat)
    requires Run(states, events) && n <= |events|
    ensures states[n].epochs.Keys == states[n].reservations.Keys
  {
    if n > 0 {
      assert Next(states[n - 1], events[n - 1], states[n - 1 + 1]);
      EpochsOfReservations(states, events, n - 1);
      EpochsStep(states[n - 1], events[n - 1]);
    }
  }

  lemma EpochsStep(s: Protocol, e: Event)
    requires s.epochs.Keys == s.reservations.Keys
    ensures Step(s, e).epochs.Keys == Step(s, e).reservations.Keys
  {
    hide Commits, Idle;
  }

  // ----- reservation exclusivity -----

  /**
    What spoils an outstanding reservation `r` on `key`: entering an access or a transition,
    another registration or admission attempt, a fork, finishing it, or leaving an access of `key`
    that was open when it was made.
  */
  ghost predicate Interferes(s: Protocol, e: Event, key: int, r: Reservation) {
    match e
    case AccessEnter(k, _) => k == key
    case AccessExit(k, thread) => k == key && Context(key, thread) in s.accesses
    case TransitionEnter(k, _) => k == key
    case TransitionExit(_, _) => false
    case Begin(k, _) => k == key
    case Clear(k, c) => k == key && c == r
    case Commit(k, c, _, _) => k == key && c == r
    case AdmitCheck(k) => k == key
    case CloseReference(_, _) => false
    case Fork => true
  }

  /** The reservation can never be committed any more. */
  ghost predicate Spoiled(s: Protocol, key: int, r: Reservation) {
    && r.token < s.nextToken
    && (key in s.reservations && s.reservations[key] == r ==>
          (key in s.epochs && s.epochs[key] > r.epoch) || s.accesses[Context(key, r.thread)] < r.depth)
  }

  ghost predicate IsContextEvent(e: Event) {
    e.AccessEnter? || e.AccessExit? || e.TransitionEnter? || e.TransitionExit?
  }

  lemma QuietContext(s: Protocol, e: Event, key: int, r: Reservation)
    requires IsContextEvent(e) && Commits(s, key, r) && !Interferes(s, e, key, r)
    ensures Commits(Step(s, e), key, r)
  {
  }

  lemma QuietRegistration(s: Protocol, e: Event, key: int, r: Reservation)
    requires !IsContextEvent(e) && Commits(s, key, r) && !Interferes(s, e, key, r)
    ensures Commits(Step(s, e), key, r)
  {
  }

  lemma QuietStep(s: Protocol, e: Event, key: int, r: Reservation)
    requires Commits(s, key, r) && !Interferes(s, e, key, r)
    ensures Commits(Step(s, e), key, r)
  {
    hide Step;
    if IsContextEvent(e) { QuietContext(s, e, key, r); } else { QuietRegistration(s, e, key, r); }
  }

  lemma InterferingStep(s: Protocol, e: Event, key: int, r: Reservation)
    requires Inv(s, key) && Commits(s, key, r) && Interferes(s, e, key, r)
    ensures Spoiled(Step(s, e), key, r)
  {
  }

  lemma BeginStep(s: Protocol, key: int, thread: int, r: Reservation)
    requires Reserve(s, key, thread) == Some(r)
    ensures Commits(Step(s, Begin(key, thread)), key, r)
  {
  }

  lemma SpoiledContext(s: Protocol, e: Event, key: int, r: Reservation)
    requires IsContextEvent(e) && Inv(s, key) && Spoiled(s, key, r)
    ensures Spoiled(Step(s, e), key, r)
  {
  }

  lemma SpoiledRegistration(s: Protocol, e: Event, key: int, r: Reservation)
    requires !IsContextEvent(e) && Inv(s, key) && Spoiled(s, key, r)
    ensures Spoiled(Step(s, e), key, r)
  {
  }

  lemma SpoiledStep(s: Protocol, e: Event, key: int, r: Reservation)
    requires Inv(s, key) && Spoiled(s, key, r)
    ensures Spoiled(Step(s, e), key, r)
  {
    hide Step;
    if IsContextEvent(e) { SpoiledContext(s, e, key, r); } else { SpoiledRegistration(s, e, key, r); }
  }

  ghost predicate Undisturbed(states: seq<Protocol>, events: seq<Event>, from: nat, to: nat, key: int, r: Reservation)
    requires to <= |events| <= |states|
  {
    forall m :: from <= m < to ==> !Interferes(states[m], events[m], key, r)
  }

  lemma {:induction false} StaysStanding(states: seq<Protocol>, events: seq<Event>, i: nat, j: nat, key: int,
    r: Reservation)
    requires Run(states, events) && i <= j <= |events| && Commits(states[i], key, r)
    requires Undisturbed(states, events, i, j, key, r)
    ensures Commits(states[j], key, r)
    decreases j - i
  {
    hide Step;
    if i < j {
      assert Next(states[i], events[i], states[i + 1]);
      QuietStep(states[i], events[i], key, r);
      StaysStanding(states, events, i + 1, j, key, r);
    }
  }

  lemma {:induction false} StaysSpoiled(states: seq<Protocol>, events: seq<Event>, i: nat, j: nat, key: int,
    r: Reservation)
    requires Run(states, events) && i <= j <= |events| && Spoiled(states[i], key, r)
    ensures Spoiled(states[j], key, r)
    decreases j - i
  {
    hide Step;
    if i < j {
      assert Next(states[i], events[i], states[i + 1]);
      ReachableInv(states, events, i, key);
      SpoiledStep(states[i], events[i], key, r);
      StaysSpoiled(states, events, i + 1, j, key, r);
    }
  }

  /** The first interference is the one that spoils the reservation. */
  lemma {:induction false} InterferenceSpoils(states: seq<Protocol>, events: seq<Event>, i: nat, j: nat, key: int,
    r: Reservation)
    requires Run(states, events) && i <= j <= |events| && Commits(states[i], key, r)
    requires !Undisturbed(states, events, i, j, key, r)
    ensures Spoiled(states[j], key, r)
    decreases j - i
  {
    hide Step;
    assert Next(states[i], events[i], states[i + 1]);
    if Interferes(states[i], events[i], key, r) {
      ReachableInv(states, events, i, key);
      InterferingStep(states[i], events[i], key, r);
      StaysSpoiled(states, events, i + 1, j, key, r);
    } else {
      QuietStep(states[i], events[i], key, r);
      InterferenceSpoils(states, events, i + 1, j, key, r);
    }
  }

  /**
    Reservation exclusivity. In every interleaving, a registration that begins at step i commits
    at step j if and only if nothing in between interfered; and then, at every step in between,
    no transition is open and the open accesses are exactly the registrant's own, at the depth it
    began with.
  */
  lemma ReservationExclusive(states: seq<Protocol>, events: seq<Event>, i: nat, j: nat, key: int, r: Reservation)
    requires Run(states, events) && i < j < |events|
    requires events[i].Begin? && events[i].key == key
    requires Reserve(states[i], key, events[i].thread) == Some(r)
    ensures Commits(states[j], key, r) <==> Undisturbed(states, events, i + 1, j, key, r)
    ensures Commits(states[j], key, r) ==>
              forall m, thread :: i < m <= j ==>
                && Context(key, thread) !in states[m].transitions
                && states[m].accesses[Context(key, thread)] == if thread == r.thread then r.depth else 0
  {
    hide Step;
    assert Next(states[i], events[i], states[i + 1]);
    BeginStep(states[i], key, events[i].thread, r);
    if Undisturbed(states, events, i + 1, j, key, r) {
      StaysStanding(states, events, i + 1, j, key, r);
      forall m, thread | i < m <= j
        ensures Context(key, thread) !in states[m].transitions
        ensures states[m].accesses[Context(key, thread)] == if thread == r.thread then r.depth else 0
      {
        StaysStanding(states, events, i + 1, m, key, r);
      }
    } else {
      InterferenceSpoils(states, events, i + 1, j, key, r);
    }
  }

  // ----- the registry of entries -----

  /** The event is a commit for `key` that finds its reservation standing and brings this entry. */
  ghost predicate Installs(s: Protocol, e: Event, key: int, entry: Entry) {
    e.Commit? && e.key == key && Commits(s, key, e.reservation) && e.entry == Some(entry)
  }

  /** The event takes this entry away: a fork, or a close or a failed commit with the entry's own reference. */
  ghost predicate TakesAway(s: Protocol, e: Event, key: int, entry: Entry) {
    || e.Fork?
    || (e.CloseReference? && e.key == key && e.reference == entry.reference)
    || (e.Commit? && e.key == key && !Commits(s, key, e.reservation) && e.reference == entry.reference)
  }

  ghost predicate InstalledAt(states: seq<Protocol>, events: seq<Event>, m: nat, n: nat, key: int, entry: Entry)
    requires m < n <= |events| < |states|
  {
    && Installs(states[m], events[m], key, entry)
    && forall k :: m < k < n ==>
         !TakesAway(states[k], events[k], key, entry) && forall other :: !Installs(states[k], events[k], key, other)
  }

  /** A commit brought this entry, and since then it was neither taken away nor replaced. */
  ghost predicate Installed(states: seq<Protocol>, events: seq<Event>, n: nat, key: int, entry: Entry)
    requires n <= |events| < |states|
  {
    exists m: nat :: m < n && InstalledAt(states, events, m, n, key, entry)
  }

  lemma InstalledExtended(states: seq<Protocol>, events: seq<Event>, n: nat, key: int, entry: Entry)
    requires n < |events| < |states|
    ensures Installed(states, events, n + 1, key, entry) <==>
              || Installs(states[n], events[n], key, entry)
              || (&& Installed(states, events, n, key, entry) && !TakesAway(states[n], events[n], key, entry)
                  && forall other :: !Installs(states[n], events[n], key, other))
  {
    hide Installs, TakesAway;
    if Installs(states[n], events[n], key, entry) { assert InstalledAt(states, events, n, n + 1, key, entry); }
    if Installed(states, events, n, key, entry) && !TakesAway(states[n], events[n], key, entry)
       && forall other :: !Installs(states[n], events[n], key, other)
    {
      var m: nat :| m < n && InstalledAt(states, events, m, n, key, entry);
      assert InstalledAt(states, events, m, n + 1, key, entry);
    }
    if Installed(states, events, n + 1, key, entry) {
      var m: nat :| m < n + 1 && InstalledAt(states, events, m, n + 1, key, entry);
      if m < n { assert InstalledAt(states, events, m, n, key, entry); }
    }
  }

  lemma StepEntries(s: Protocol, e: Event)
    ensures Step(s, e).entries ==
            match e
            case Commit(key, r, reference, entry) =>
              if !Commits(s, key, r) then Forget(s.entries, key, reference)
              else if entry.Some? then s.entries[key := entry.value]
              else s.entries
            case CloseReference(key, reference) => Forget(s.entries, key, reference)
            case Fork => map[]
            case _ => s.entries
  {
    hide Commits, Reserve, Idle;
  }

  lemma EntriesStep(s: Protocol, e: Event, key: int, entry: Entry)
    ensures (key in Step(s, e).entries && Step(s, e).entries[key] == entry) <==>
              || Installs(s, e, key, entry)
              || (&& key in s.entries && s.entries[key] == entry && !TakesAway(s, e, key, entry)
                  && forall other :: !Installs(s, e, key, other))
  {
    hide Commits, Step;
    StepEntries(s, e);
    if e.Commit? && e.entry.Some? && Commits(s, e.key, e.reservation) {
      assert Installs(s, e, e.key, e.entry.value);
    }
  }

  /**
    The registry, in every run: under a key it holds exactly the entry of the last commit for this key that found its
    reservation standing and brought an entry, unless since then the process was forked, or that
    entry's own reference was closed or failed to commit.
  */
  lemma {:induction false} EntriesInstalled(states: seq<Protocol>, events: seq<Event>, n: nat, key: int, entry: Entry)
    requires Run(states, events) && n <= |events|
    ensures (key in states[n].entries && states[n].entries[key] == entry) <==> Installed(states, events, n, key, entry)
  {
    hide Step, Installs, TakesAway;
    if n > 0 {
      assert Next(states[n - 1], events[n - 1], states[n - 1 + 1]);
      EntriesInstalled(states, events, n - 1, key, entry);
      InstalledExtended(states, events, n - 1, key, entry);
      EntriesStep(states[n - 1], events[n - 1], key, entry);
    }
  }

  // ----- transition tokens -----

  /** `token.first` of the transition entered by this event. */
  ghost predicate First(s: Protocol, key: int) { Idle(s.transitions, key) }

  /** `token.quiescent` of the transition left by this event. */
  ghost predicate Quiescent(s: Protocol, key: int, thread: int) {
    Idle(s.transitions - multiset{Context(key, thread)}, key) && Idle(s.accesses, key)
  }

  /** A period of overlapping transitions on `key` that event i opened and that event j finds open, or i is j. */
  ghost predicate Period(states: seq<Protocol>, events: seq<Event>, i: nat, j: nat, key: int) {
    && Run(states, events) && i <= j < |events|
    && Idle(states[i].transitions, key) && !Idle(states[i + 1].transitions, key)
    && (forall m :: i < m <= j ==> !Idle(states[m].transitions, key))
  }

  /**
    In a period, however it ends and even if it never does, exactly one entering token is `first`: that of its
    opener. Only a transition exit or a fork can end it, and an exit is quiescent exactly when it
    ends the period and no access is open at that moment.
  */
  lemma PeriodTokens(states: seq<Protocol>, events: seq<Event>, i: nat, j: nat, key: int)
    requires Period(states, events, i, j, key)
    ensures events[i].TransitionEnter? && events[i].key == key
    ensures forall m :: i <= m <= j && events[m].TransitionEnter? && events[m].key == key ==>
              (First(states[m], key) <==> m == i)
    ensures forall m :: i <= m <= j && events[m].TransitionExit? && events[m].key == key ==>
              (Quiescent(states[m], key, events[m].thread)
               <==> m == j && Idle(states[j + 1].transitions, key) && Idle(states[j].accesses, key))
    ensures Idle(states[j + 1].transitions, key) ==>
              events[j] == Fork || (events[j].TransitionExit? && events[j].key == key)
  {
    assert Next(states[i], events[i], states[i + 1]) && Next(states[j], events[j], states[j + 1]);
    OpensOrCloses(states[i], events[i], key);
    OpensOrCloses(states[j], events[j], key);
    forall m | i <= m <= j && events[m].TransitionExit? && events[m].key == key
      ensures Quiescent(states[m], key, events[m].thread)
              <==> m == j && Idle(states[j + 1].transitions, key) && Idle(states[j].accesses, key)
    {
      assert Next(states[m], events[m], states[m + 1]);
      if m < j { assert !Idle(states[m + 1].transitions, key); }
    }
  }

  /** Only entering or leaving a transition of `key`, or a fork, changes whether one is open. */
  lemma OpensOrCloses(s: Protocol, e: Event, key: int)
    ensures Idle(s.transitions, key) && !Idle(Step(s, e).transitions, key) ==> e.TransitionEnter? && e.key == key
    ensures !Idle(s.transitions, key) && Idle(Step(s, e).transitions, key) ==>
              e == Fork || (e.TransitionExit? && e.key == key)
  {
    if !Idle(s.transitions, key) && Idle(Step(s, e).transitions, key) {
      var thread :| Context(key, thread) in s.transitions;
    }
  }

  // ----- bracketing -----

  ghost function Opened(s: Protocol, access: bool): multiset<Context> { if access then s.accesses else s.transitions }

  function Entering(access: bool, key: int, thread: int): Event {
    if access then AccessEnter(key, thread) else TransitionEnter(key, thread)
  }

  function Leaving(access: bool, key: int, thread: int): Event {
    if access then AccessExit(key, thread) else TransitionExit(key, thread)
  }

  /** Contexts entered and not yet left in this process, counted from the events alone. */
  ghost function Balance(events: seq<Event>, n: nat, access: bool, key: int, thread: int): int
    requires n <= |events|
  {
    if n == 0 || events[n - 1] == Fork then 0
    else
      var before := Balance(events, n - 1, access, key, thread);
      if events[n - 1] == Entering(access, key, thread) then before + 1
      else if events[n - 1] == Leaving(access, key, thread) then before - 1
      else before
  }

  /** Every exit leaves a context that was entered before, in the same process. */
  ghost predicate Bracketed(events: seq<Event>) {
    forall n, access, key, thread :: 0 <= n < |events| && events[n] == Leaving(access, key, thread) ==>
      Balance(events, n, access, key, thread) > 0
  }

  lemma AccessStep(s: Protocol, e: Event, key: int, thread: int)
    ensures Step(s, e).accesses[Context(key, thread)] ==
            if e == Fork then 0
            else if e == AccessEnter(key, thread) then s.accesses[Context(key, thread)] + 1
            else if e == AccessExit(key, thread) && Context(key, thread) in s.accesses
            then s.accesses[Context(key, thread)] - 1
            else s.accesses[Context(key, thread)]
  {
    hide Idle, Commits, Reserve;
  }

  lemma TransitionStep(s: Protocol, e: Event, key: int, thread: int)
    ensures Step(s, e).transitions[Context(key, thread)] ==
            if e == Fork then 0
            else if e == TransitionEnter(key, thread) then s.transitions[Context(key, thread)] + 1
            else if e == TransitionExit(key, thread) && Context(key, thread) in s.transitions
            then s.transitions[Context(key, thread)] - 1
            else s.transitions[Context(key, thread)]
  {
    hide Idle, Commits, Reserve;
  }

  /** In a well-bracketed run the open contexts are, at every step, those the events say. */
  lemma {:induction false} BracketedContexts(states: seq<Protocol>, events: seq<Event>, n: nat, access: bool,
    key: int, thread: int)
    requires Run(states, events) && Bracketed(events) && n <= |events|
    ensures Opened(states[n], access)[Context(key, thread)] == Balance(events, n, access, key, thread)
  {
    if n > 0 {
      hide Step;
      var s, e := states[n - 1], events[n - 1];
      BracketedContexts(states, events, n - 1, access, key, thread);
      assert Next(s, e, states[n - 1 + 1]);
      assert e == Leaving(access, key, thread) ==> Balance(events, n - 1, access, key, thread) > 0;
      hide Bracketed, Run;
      if access { AccessStep(s, e, key, thread); } else { TransitionStep(s, e, key, thread); }
    }
  }

  /** So no exit finds its context missing: "owner transition state was lost" is never raised. */
  lemma ExitFindsContext(states: seq<Protocol>, events: seq<Event>, n: nat, access: bool, key: int, thread: int)
    requires Run(states, events) && Bracketed(events) && n < |events| && events[n] == Leaving(access, key, thread)
    ensures Context(key, thread) in Opened(states[n], access)
  {
    BracketedContexts(states, events, n, access, key, thread);
  }

  // ----- the dictionaries under the lock -----

  type Counts = map<int, map<int, nat>>

  function Count(counts: Counts, key: int, thread: int): nat {
    if key in counts && thread in counts[key] then counts[key][thread] else 0
  }

  /** The stored counts are exactly the open contexts, with no zero count and no empty dictionary. */
  ghost predicate Represents(counts: Counts, open: multiset<Context>) {
    && (forall key :: key in counts ==> counts[key] != map[])
    && (forall key, thread :: key in counts && thread in counts[key] ==> counts[key][thread] > 0)
    && (forall key, thread :: open[Context(key, thread)] == Count(counts, key, thread))
  }

  function Threads(counts: Counts, key: int): map<int, nat> {
    if key in counts then counts[key] else map[]
  }

  lemma ThreadsOf(counts: Counts, key: int)
    ensures key in counts ==> Threads(counts, key) == counts[key]
    ensures key !in counts ==> Threads(counts, key) == map[]
  {
  }

  lemma RepresentsIdle(counts: Counts, open: multiset<Context>, key: int)
    requires Represents(counts, open)
    ensures Idle(open, key) <==> key !in counts
  {
    assert forall thread :: open[Context(key, thread)] == Count(counts, key, thread);
    if key in counts {
      var threads := counts[key];
      assert (forall t :: t !in threads) ==> threads == map[];
      var thread :| thread in threads;
      assert open[Context(key, thread)] > 0;
    }
  }

  /** What the dictionary of one owner says about its open contexts. */
  lemma RepresentsThreads(counts: Counts, open: multiset<Context>, key: int, thread: int)
    requires Represents(counts, open)
    ensures open[Context(key, thread)] == Count(counts, key, thread)
    ensures thread in Threads(counts, key) <==> Context(key, thread) in open
    ensures (exists other :: other in Threads(counts, key) && other != thread)
            <==> (exists other :: other != thread && Context(key, other) in open)
  {
    assert forall t :: open[Context(key, t)] == Count(counts, key, t);
    if exists other :: other in Threads(counts, key) && other != thread {
      var other :| other in Threads(counts, key) && other != thread;
      assert Context(key, other) in open;
    }
  }

  /** A reservation, as the dictionaries tell it. */
  lemma ReserveMeaning(s: Protocol, transitions: Counts, accesses: Counts, key: int, thread: int)
    requires Represents(transitions, s.transitions) && Represents(accesses, s.accesses)
    ensures var threads := Threads(accesses, key);
            Reserve(s, key, thread) ==
            if key in s.reservations || key in transitions || exists other :: other in threads && other != thread
            then None
            else Some(Reservation(s.nextToken, s.nextEpoch, thread, if thread in threads then threads[thread] else 0))
  {
    hide Represents;
    RepresentsIdle(transitions, s.transitions, key);
    RepresentsThreads(accesses, s.accesses, key, thread);
  }

  /** The source compares this thread's depth and the number of threads; together they fix every count. */
  lemma Baseline(counts: Counts, open: multiset<Context>, key: int, thread: int, depth: nat)
    requires Represents(counts, open)
    ensures (Count(counts, key, thread) == depth && |Threads(counts, key)| == (if depth != 0 then 1 else 0))
            <==> (open[Context(key, thread)] == depth
                  && forall other :: other != thread ==> Context(key, other) !in open)
  {
    var inner := Threads(counts, key);
    assert |inner| == |inner.Keys|;
    assert forall t :: open[Context(key, t)] == Count(counts, key, t);
    if Count(counts, key, thread) == depth && |inner| == (if depth != 0 then 1 else 0) {
      forall other | other != thread ensures Context(key, other) !in open {
        if depth != 0 { assert inner.Keys == {thread} by { OnlyMember(inner.Keys, thread); } }
      }
    }
    if open[Context(key, thread)] == depth && forall other :: other != thread ==> Context(key, other) !in open {
      forall other | other in inner ensures other == thread { assert open[Context(key, other)] > 0; }
      assert inner.Keys == if depth != 0 then {thread} else {};
    }
  }

  lemma OnlyMember<T>(s: set<T>, x: T)
    requires x in s && |s| == 1
    ensures s == {x}
  {
    assert |s - {x}| == 0;
  }

  /** Entering a context: `setdefault`, then one more on this thread's count. */
  method EnterContext(counts: Counts, key: int, thread: int, ghost open: multiset<Context>)
    returns (r: Counts, wasEmpty: bool)
    requires Represents(counts, open)
    ensures Represents(r, open + multiset{Context(key, thread)})
    ensures wasEmpty <==> Idle(open, key)
  {
    RepresentsIdle(counts, open, key);
    r := counts;
    if key !in r { r := r[key := map[]]; }
    var inner := r[key];
    wasEmpty := inner == map[];
    inner := inner[thread := (if thread in inner then inner[thread] else 0) + 1];
    r := r[key := inner];
    assert thread in inner;
    forall k, t ensures (open + multiset{Context(key, thread)})[Context(k, t)] == Count(r, k, t) {
      assert open[Context(k, t)] == Count(counts, k, t);
    }
  }

  /** Leaving a context: one less, dropping a zero count and then an empty dictionary. */
  method LeaveContext(counts: Counts, key: int, thread: int, ghost open: multiset<Context>)
    returns (r: Counts, lost: bool, emptied: bool)
    requires Represents(counts, open)
    ensures Represents(r, open - multiset{Context(key, thread)})
    ensures lost <==> Context(key, thread) !in open
    ensures !lost ==> (emptied <==> Idle(open - multiset{Context(key, thread)}, key))
  {
    RepresentsThreads(counts, open, key, thread);
    ghost var open' := open - multiset{Context(key, thread)};
    if key !in counts || thread !in counts[key] {
      assert open' == open;
      return counts, true, false;
    }
    var inner := counts[key];
    var remaining := inner[thread] - 1;
    if remaining != 0 { inner := inner[thread := remaining]; } else { inner := inner - {thread}; }
    emptied := inner == map[];
    r := if emptied then counts - {key} else counts[key := inner];
    lost := false;
    forall k, t ensures open'[Context(k, t)] == Count(r, k, t) {
      assert open[Context(k, t)] == Count(counts, k, t);
      if k == key && t != thread { assert t in inner <==> t in counts[key]; }
    }
    RepresentsIdle(r, open', key);
  }

  datatype ExitResult = Lost | Exited(quiescent: bool)

  class OwnerRegistry {
    var transitions: Counts
    var accesses: Counts
    var registrations: map<int, Reservation>
    var activityEpochs: map<int, nat>
    var registry: map<int, Entry>
    var nextEpoch: nat
    var nextToken: nat
    ghost var model: Protocol

    ghost predicate Valid()
      reads this
    {
      && Represents(accesses, model.accesses)
      && Represents(transitions, model.transitions)
      && model == Protocol(model.accesses, model.transitions, registrations, activityEpochs, registry, nextEpoch,
        nextToken)
    }

    constructor ()
      ensures Valid() && model == INITIAL
    {
      transitions, accesses, registrations, activityEpochs, registry := map[], map[], map[], map[], map[];
      nextEpoch, nextToken := 1, 0;
      model := INITIAL;
    }

    method RecordActivity(key: int)
      requires Valid()
      modifies this
      ensures Valid() && model == Disturb(old(model), key)
    {
      if key in registrations {
        activityEpochs := activityEpochs[key := nextEpoch];
        nextEpoch := nextEpoch + 1;
      }
      model := Disturb(model, key);
    }

    method EnterAccess(key: int, thread: int) returns (allowed: bool)
      requires Valid()
      modifies this
      ensures Valid() && model == Step(old(model), AccessEnter(key, thread))
      ensures allowed <==> key !in old(transitions) && key !in old(registrations)
      ensures allowed <==> Allowed(old(model), key)
    {
      hide Represents;
      RepresentsIdle(transitions, model.transitions, key);
      allowed := key !in transitions && key !in registrations;
      RecordActivity(key);
      var entered, _ := EnterContext(accesses, key, thread, model.accesses);
      accesses := entered;
      model := model.(accesses := model.accesses + multiset{Context(key, thread)});
    }

    /** The exit block of `owner_access`; a missing count is the source's KeyError. */
    method ExitAccess(key: int, thread: int) returns (lost: bool)
      requires Valid()
      modifies this
      ensures Valid() && model == Step(old(model), AccessExit(key, thread))
      ensures lost <==> Context(key, thread) !in old(model).accesses
    {
      hide Represents;
      var left, missing, _ := LeaveContext(accesses, key, thread, model.accesses);
      lost := missing;
      accesses := left;
      model := model.(accesses := model.accesses - multiset{Context(key, thread)});
    }

    method EnterTransition(key: int, thread: int) returns (first: bool)
      requires Valid()
      modifies this
      ensures Valid() && model == Step(old(model), TransitionEnter(key, thread))
      ensures first <==> key !in old(transitions)
      ensures first <==> First(old(model), key)
    {
      hide Represents;
      RepresentsIdle(transitions, model.transitions, key);
      RecordActivity(key);
      var entered, wasEmpty := EnterContext(transitions, key, thread, model.transitions);
      first := wasEmpty;
      transitions := entered;
      model := model.(transitions := model.transitions + multiset{Context(key, thread)});
    }

    /** "owner transition state was lost" is raised exactly when no such transition is open. */
    method ExitTransition(key: int, thread: int) returns (r: ExitResult)
      requires Valid()
      modifies this
      ensures Valid() && model == Step(old(model), TransitionExit(key, thread))
      ensures r == Lost <==> Context(key, thread) !in old(model).transitions
      ensures r.Exited? ==> (r.quiescent <==> Quiescent(old(model), key, thread))
      ensures r.Exited? ==> (r.quiescent <==> key !in transitions && key !in accesses)
    {
      hide Represents;
      RepresentsIdle(accesses, model.accesses, key);
      var left, missing, emptied := LeaveContext(transitions, key, thread, model.transitions);
      transitions := left;
      model := model.(transitions := model.transitions - multiset{Context(key, thread)});
      RepresentsIdle(transitions, model.transitions, key);
      r := if missing then Lost else Exited(emptied && key !in accesses);
    }

    method BeginRegistration(key: int, thread: int) returns (r: Option<Reservation>)
      requires Valid()
      modifies this
      ensures Valid() && model == Step(old(model), Begin(key, thread))
      ensures r == Reserve(old(model), key, thread)
      ensures r.Some? <==> key !in old(registrations) && key !in old(transitions)
                           && (key in old(accesses) ==> old(accesses)[key].Keys <= {thread})
      ensures r.Some? ==> registrations == old(registrations)[key := r.value]
      ensures r.Some? ==> r.value.thread == thread && r.value.depth == Count(old(accesses), key, thread)
    {
      hide Represents, Reserve, Threads;
      ReserveMeaning(model, transitions, accesses, key, thread);
      if key in registrations {
        RecordActivity(key);
        return None;
      }
      if key in transitions { return None; }
      var threads := Threads(accesses, key);
      ThreadsOf(accesses, key);
      if exists other :: other in threads && other != thread { return None; }
      var reservation := Reservation(nextToken, nextEpoch, thread, if thread in threads then threads[thread] else 0);
      activityEpochs := activityEpochs[key := nextEpoch];
      registrations := registrations[key := reservation];
      nextEpoch, nextToken := nextEpoch + 1, nextToken + 1;
      model := Step(model, Begin(key, thread));
      r := Some(reservation);
    }

    method ClearRegistration(key: int, reservation: Reservation)
      requires Valid()
      modifies this
      ensures Valid() && model == Step(old(model), Clear(key, reservation))
      ensures registrations == if key in old(registrations) && old(registrations)[key] == reservation
                               then old(registrations) - {key} else old(registrations)
    {
      hide Represents;
      if key in registrations && registrations[key] == reservation {
        registrations := registrations - {key};
        activityEpochs := activityEpochs - {key};
      }
      model := Step(model, Clear(key, reservation));
    }

    /** The validation block of `_register_adapter_reference`. */
    method CommitRegistration(key: int, reservation: Reservation, reference: int, entry: Option<Entry>)
      returns (valid: bool)
      requires Valid()
      modifies this
      ensures Valid() && model == Step(old(model), Commit(key, reservation, reference, entry))
      ensures valid <==> Commits(old(model), key, reservation)
      ensures registrations == if valid then old(registrations) - {key} else old(registrations)
      ensures valid ==> registry == if entry.Some? then old(registry)[key := entry.value] else old(registry)
      ensures !valid && key in old(registry) && old(registry)[key].reference == reference ==>
                registry == old(registry) - {key}
      ensures !valid && (key in old(registry) ==> old(registry)[key].reference != reference) ==>
                registry == old(registry)
    {
      hide Represents;
      RepresentsIdle(transitions, model.transitions, key);
      Baseline(accesses, model.accesses, key, reservation.thread, reservation.depth);
      var threads := Threads(accesses, key);
      var baseline := (if reservation.thread in threads then threads[reservation.thread] else 0) == reservation.depth
        && |threads| == (if reservation.depth != 0 then 1 else 0);
      valid := key in registrations && registrations[key] == reservation
        && key in activityEpochs && activityEpochs[key] == reservation.epoch
        && key !in transitions && baseline;
      assert valid <==> Commits(model, key, reservation);
      if valid {
        if entry.Some? { registry := registry[key := entry.value]; }
        registrations := registrations - {key};
        activityEpochs := activityEpochs - {key};
      } else if key in registry && registry[key].reference == reference {
        registry := registry - {key};
      }
      model := Step(model, Commit(key, reservation, reference, entry));
    }

    /** The first block of `_admit`: admission is refused, and noted, while a registration is under way. */
    method Admit(key: int) returns (denied: bool)
      requires Valid()
      modifies this
      ensures Valid() && model == Step(old(model), AdmitCheck(key))
      ensures denied <==> key in old(registrations)
    {
      denied := key in registrations;
      RecordActivity(key);
    }

    /** `close_reference`: forget only the entry owned by this exact weak reference. */
    method CloseReference(key: int, reference: int)
      requires Valid()
      modifies this
      ensures Valid() && model == Step(old(model), Event.CloseReference(key, reference))
      ensures registry == if key in old(registry) && old(registry)[key].reference == reference
                          then old(registry) - {key} else old(registry)
    {
      if key in registry && registry[key].reference == reference { registry := registry - {key}; }
      model := Step(model, Event.CloseReference(key, reference));
    }

    /** `_ensure_process` in a forked child: every table is replaced by an empty one. */
    method ResetAfterFork()
      requires Valid()
      modifies this
      ensures Valid() && model == Step(old(model), Fork)
      ensures transitions == accesses == map[] && registrations == map[] && activityEpochs == map[] && registry == map[]
    {
      transitions, accesses, registrations, activityEpochs, registry := map[], map[], map[], map[], map[];
      nextEpoch := 1;
      model := INITIAL.(nextToken := nextToken);
    }
  }
}
