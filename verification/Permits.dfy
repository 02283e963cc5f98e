/**
  Pool permits: a blocking pool of size n lets n requests run at a time, and the permit travels from
  the send to the response and on to its body, which gives it back on one of several paths.

  `Step` is the protocol over any interleaving of requests; the classes below it are the objects
  of the source, whose methods are proved to act as the events of the protocol say.
*/
module Permits {
  import opened Prelude
  import opened WireBody

  /** Who has the permit: a send in flight, its response, or a body. `done` is the wire body's `is_terminal`. */
  datatype Owner = Sending | Responding | Reading(done: bool, holds: bool)

  /** Operations on a body, with what the wire body answered: `count` is None for an error. */
  datatype Operation =
    | Read(size: nat, count: Option<nat>, done: bool)
    | ReadAsync(ok: bool, done: bool)
    | FinishEncoded(done: bool)
    | Discard  // close, close_async or drop

  predicate Holds(owner: Option<Owner>) {
    owner.Some? && (owner.value.Reading? ==> owner.value.holds)
  }

  /** The body after an operation; None is gone. */
  function After(holds: bool, op: Operation): Option<Owner> {
    match op
    case Read(size, count, done) => Some(Reading(done, holds && !(count == Some(0) && size > 0)))
    case ReadAsync(ok, done) => if ok then Some(Reading(done, holds && !done)) else None
    case FinishEncoded(done) => Some(Reading(done, holds && !done))
    case Discard => None
  }

  /**
    What a wire body can answer, given whether it was finished before: bytes within the size, an error or an empty
    answer only when it then is finished, nothing at all into an empty buffer, and no news once it is finished.
  */
  predicate Possible(finished: bool, op: Operation) {
    match op
    case Read(size, count, done) =>
      && (count.Some? ==> count.value <= size)
      && (if size == 0 then count == Some(0) && done == finished else count == None || count == Some(0) ==> done)
      && (finished ==> done && count == Some(0))
    case ReadAsync(ok, done) => finished ==> ok && done
    case FinishEncoded(done) => finished ==> done
    case Discard => true
  }

  // ----- the protocol -----

  /** `size` is None for a pool that does not block or has no size. Permits are numbered as they are acquired. */
  datatype Pool = Pool(size: Option<nat>, free: nat, owners: map<nat, Owner>, next: nat, released: multiset<nat>)

  datatype Event =
    | Acquire
    | Abandon(permit: nat)  // the send fails or is dropped, or the response is dropped
    | Answer(permit: nat)
    | IntoBody(permit: nat)
    | Operate(permit: nat, op: Operation)

  function Initial(size: Option<nat>): Pool { Pool(size, if size.Some? then size.value else 0, map[], 0, multiset{}) }

  function OwnerOf(p: Pool, permit: nat): Option<Owner> {
    if permit in p.owners then Some(p.owners[permit]) else None
  }

  ghost predicate Enabled(p: Pool, e: Event) {
    match e
    case Acquire => p.size.Some? ==> p.free > 0
    case Abandon(permit) => permit in p.owners && !p.owners[permit].Reading?
    case Answer(permit) => permit in p.owners && p.owners[permit].Sending?
    case IntoBody(permit) => permit in p.owners && p.owners[permit].Responding?
    case Operate(permit, op) => permit in p.owners && p.owners[permit].Reading? && Possible(p.owners[permit].done, op)
  }

  function NextOwner(p: Pool, e: Event): Option<Owner>
    requires !e.Acquire?
  {
    match e
    case Abandon(_) => None
    case Answer(_) => Some(Responding)
    case IntoBody(_) => Some(Reading(false, true))
    case Operate(permit, op) => After(Holds(OwnerOf(p, permit)), op)
  }

  function Step(p: Pool, e: Event): Pool {
    if e.Acquire? then
      p.(free := if p.size.Some? && p.free > 0 then p.free - 1 else p.free,
      owners := p.owners[p.next := Sending], next := p.next + 1)
    else
      var after := NextOwner(p, e);
      var q := p.(owners := if after.Some? then p.owners[e.permit := after.value] else p.owners - {e.permit});
      if Holds(OwnerOf(p, e.permit)) && !Holds(after) then
        q.(free := if p.size.Some? then p.free + 1 else p.free, released := p.released + multiset{e.permit})
      else q
  }

  ghost predicate Run(size: Option<nat>, states: seq<Pool>, events: seq<Event>) {
    && |states| == |events| + 1 && states[0] == Initial(size)
    && forall n :: 0 <= n < |events| ==> Enabled(states[n], events[n]) && Next(states[n], events[n], states[n + 1])
  }

  ghost predicate Next(p: Pool, e: Event, q: Pool) { q == Step(p, e) }

  // ----- conservation -----

  ghost function Holders(p: Pool): set<nat> { set permit | permit in p.owners && Holds(Some(p.owners[permit])) }

  ghost predicate Conserved(p: Pool) {
    && (p.size.Some? ==> p.free + |Holders(p)| == p.size.value)
    && (forall permit :: permit in p.owners ==> permit < p.next)
    && (forall permit: nat :: p.released[permit] == if permit < p.next && permit !in Holders(p) then 1 else 0)
  }

  /** What one step does to the set of holders. */
  lemma StepHolders(p: Pool, e: Event)
    requires Conserved(p) && Enabled(p, e)
    ensures Holders(Step(p, e)) ==
              if e.Acquire? then Holders(p) + {p.next}
              else if Holds(OwnerOf(p, e.permit)) && !Holds(NextOwner(p, e)) then Holders(p) - {e.permit}
              else Holders(p)
  {
    hide After;
    if !e.Acquire? {
      assert Holds(NextOwner(p, e)) ==> Holds(OwnerOf(p, e.permit)) by { NeverRegained(p, e); }
    }
  }

  /** A body that gave its permit back never has one again. */
  lemma NeverRegained(p: Pool, e: Event)
    requires Enabled(p, e) && !e.Acquire?
    ensures Holds(NextOwner(p, e)) ==> Holds(OwnerOf(p, e.permit))
  {
  }

  lemma AcquireConserves(p: Pool)
    requires Conserved(p) && Enabled(p, Acquire)
    ensures Conserved(Step(p, Acquire))
  {
    StepHolders(p, Acquire);
    assert p.next !in Holders(p) by { HoldersOwned(p); }
    hide Holders;
  }

  lemma MoveConserves(p: Pool, e: Event)
    requires Conserved(p) && Enabled(p, e) && !e.Acquire?
    ensures Conserved(Step(p, e))
  {
    StepHolders(p, e);
    HoldersOwned(p);
    var gives := Holds(OwnerOf(p, e.permit)) && !Holds(NextOwner(p, e));
    assert gives ==> e.permit in Holders(p);
    hide Holders, After, NextOwner, Holds;
  }

  lemma StepConserves(p: Pool, e: Event)
    requires Conserved(p) && Enabled(p, e)
    ensures Conserved(Step(p, e))
  {
    hide *;
    if e.Acquire? { AcquireConserves(p); } else { MoveConserves(p, e); }
  }

  lemma HoldersOwned(p: Pool)
    ensures Holders(p) <= p.owners.Keys
    ensures forall permit: nat :: permit in Holders(p) <==> Holds(OwnerOf(p, permit))
  {
  }

  lemma {:induction false} ReachableConserved(size: Option<nat>, states: seq<Pool>, events: seq<Event>, n: nat)
    requires Run(size, states, events) && n <= |events|
    ensures Conserved(states[n]) && states[n].size == size
  {
    if n == 0 {
      assert Holders(states[0]) == {};
    } else {
      ReachableConserved(size, states, events, n - 1);
      assert Enabled(states[n - 1], events[n - 1]) && Next(states[n - 1], events[n - 1], states[n - 1 + 1]);
      StepConserves(states[n - 1], events[n - 1]);
    }
  }

  /**
    Permit conservation, in every reachable state: the free permits and the permits of sends, responses and
    bodies add up to the size of the pool, so at most that many are held at once and a further send waits
    exactly when that many are held; and a permit was released exactly once if its
    owner is gone or gave it back, and never while it is held.
  */
  lemma PermitConservation(size: Option<nat>, states: seq<Pool>, events: seq<Event>, n: nat, permit: nat)
    requires Run(size, states, events) && n <= |events|
    ensures var p := states[n];
            && (size.Some? ==>
                  && p.free + |Holders(p)| == size.value
                  && (!Enabled(p, Acquire) <==> |Holders(p)| == size.value))
            && (permit < p.next ==> p.released[permit] == if Holds(OwnerOf(p, permit)) then 0 else 1)
            && (p.owners == map[] && size.Some? ==> p.free == size.value)
  {
    ReachableConserved(size, states, events, n);
    HoldersOwned(states[n]);
    if states[n].owners == map[] { assert Holders(states[n]) == {}; }
  }

  // ----- when a permit is held -----

  /** The event ends the holding of this permit. */
  predicate GivesBack(e: Event, permit: nat) {
    match e
    case Acquire => false
    case Abandon(p) => p == permit
    case Answer(_) => false
    case IntoBody(_) => false
    case Operate(p, op) =>
      p == permit &&
      match op
      case Read(size, count, _) => size > 0 && count == Some(0)
      case ReadAsync(ok, done) => !ok || done
      case FinishEncoded(done) => done
      case Discard => true
  }

  ghost predicate HeldFrom(states: seq<Pool>, events: seq<Event>, permit: nat, m: nat, n: nat)
    requires m < n <= |events| < |states|
  {
    events[m] == Acquire && states[m].next == permit && forall k :: m < k < n ==> !GivesBack(events[k], permit)
  }

  /** The permit was acquired, and no event since then gave it back. */
  ghost predicate HeldSince(states: seq<Pool>, events: seq<Event>, permit: nat, n: nat)
    requires n <= |events| < |states|
  {
    exists m: nat :: m < n && HeldFrom(states, events, permit, m, n)
  }

  lemma HeldExtended(states: seq<Pool>, events: seq<Event>, permit: nat, n: nat)
    requires n < |events| < |states|
    ensures HeldSince(states, events, permit, n + 1) <==>
            || (events[n] == Acquire && states[n].next == permit)
            || (HeldSince(states, events, permit, n) && !GivesBack(events[n], permit))
  {
    hide GivesBack;
    if events[n] == Acquire && states[n].next == permit { assert HeldFrom(states, events, permit, n, n + 1); }
    if HeldSince(states, events, permit, n) && !GivesBack(events[n], permit) {
      var m: nat :| m < n && HeldFrom(states, events, permit, m, n);
      assert HeldFrom(states, events, permit, m, n + 1);
    }
    if HeldSince(states, events, permit, n + 1) {
      var m: nat :| m < n + 1 && HeldFrom(states, events, permit, m, n + 1);
      if m < n { assert HeldFrom(states, events, permit, m, n); }
    }
  }

  lemma HeldStep(p: Pool, e: Event, permit: nat)
    requires Enabled(p, e) && Conserved(p)
    ensures Holds(OwnerOf(Step(p, e), permit)) <==>
              (e == Acquire && p.next == permit) || (Holds(OwnerOf(p, permit)) && !GivesBack(e, permit))
  {
    hide Holders;
  }

  /**
    Exactly as long as it should be: in every run a permit is held if and only if it was acquired and since then neither
    its send or response was given up, nor its body closed or dropped, nor did a blocking read of it come back empty
    from a buffer that was not, an asynchronous read fail or finish it, or encoded completion finish it.
  */
  lemma {:induction false} HeldIff(size: Option<nat>, states: seq<Pool>, events: seq<Event>, n: nat, permit: nat)
    requires Run(size, states, events) && n <= |events|
    ensures Holds(OwnerOf(states[n], permit)) <==> HeldSince(states, events, permit, n)
  {
    if n > 0 {
      hide Step, Enabled, OwnerOf, Conserved, Holds, HeldSince, GivesBack;
      assert Enabled(states[n - 1], events[n - 1]) && Next(states[n - 1], events[n - 1], states[n - 1 + 1]);
      ReachableConserved(size, states, events, n - 1);
      HeldIff(size, states, events, n - 1, permit);
      HeldStep(states[n - 1], events[n - 1], permit);
      HeldExtended(states, events, permit, n - 1);
    }
  }

  /** An unfinished body never is without its permit. */
  lemma {:induction false} UnfinishedHolds(size: Option<nat>, states: seq<Pool>, events: seq<Event>, n: nat,
    permit: nat)
    requires Run(size, states, events) && n <= |events|
    requires permit in states[n].owners && states[n].owners[permit].Reading? && !states[n].owners[permit].done
    ensures states[n].owners[permit].holds
  {
    var p, e := states[n - 1], events[n - 1];
    assert Enabled(p, e) && Next(p, e, states[n - 1 + 1]);
    UnfinishedStep(p, e, permit);
    hide Step, Enabled;
    if permit in p.owners && p.owners[permit].Reading? && !p.owners[permit].done {
      UnfinishedHolds(size, states, events, n - 1, permit);
    }
  }

  lemma UnfinishedStep(p: Pool, e: Event, permit: nat)
    requires Enabled(p, e) && permit in Step(p, e).owners
    requires Step(p, e).owners[permit].Reading? && !Step(p, e).owners[permit].done
    ensures permit in p.owners && p.owners[permit].Reading? && !p.owners[permit].done ==>
              p.owners[permit].holds ==> Step(p, e).owners[permit].holds
    ensures !(permit in p.owners && p.owners[permit].Reading? && !p.owners[permit].done) ==>
              Step(p, e).owners[permit].holds
  {
  }

  // ----- finished bodies -----

  /** The event is the blocking read that finished the body, with bytes or an error, while leaving it its permit. */
  ghost predicate FinishesHolding(p: Pool, e: Event, permit: nat) {
    && e.Operate? && e.permit == permit && e.op.Read? && e.op.done && e.op.count != Some(0)
    && OwnerOf(p, permit) == Some(Reading(false, true))
  }

  /** The event is no operation on the body of this permit, or a read into an empty buffer. */
  predicate LeavesAlone(e: Event, permit: nat) {
    e.Operate? && e.permit == permit ==> e.op.Read? && e.op.size == 0
  }

  ghost predicate FinishedSince(states: seq<Pool>, events: seq<Event>, permit: nat, m: nat, n: nat)
    requires m < n <= |events| < |states|
  {
    FinishesHolding(states[m], events[m], permit) && forall k :: m < k < n ==> LeavesAlone(events[k], permit)
  }

  ghost predicate HeldSinceFinished(states: seq<Pool>, events: seq<Event>, permit: nat, n: nat)
    requires n <= |events| < |states|
  {
    exists m: nat :: m < n && FinishedSince(states, events, permit, m, n)
  }

  lemma SinceExtended(states: seq<Pool>, events: seq<Event>, permit: nat, n: nat)
    requires n < |events| < |states|
    ensures HeldSinceFinished(states, events, permit, n + 1) <==>
            || FinishesHolding(states[n], events[n], permit)
            || (LeavesAlone(events[n], permit) && HeldSinceFinished(states, events, permit, n))
  {
    hide FinishesHolding, LeavesAlone;
    if FinishesHolding(states[n], events[n], permit) { assert FinishedSince(states, events, permit, n, n + 1); }
    if HeldSinceFinished(states, events, permit, n) && LeavesAlone(events[n], permit) {
      var m: nat :| m < n && FinishedSince(states, events, permit, m, n);
      assert FinishedSince(states, events, permit, m, n + 1);
    }
    if HeldSinceFinished(states, events, permit, n + 1) {
      var m: nat :| m < n + 1 && FinishedSince(states, events, permit, m, n + 1);
      if m < n { assert FinishedSince(states, events, permit, m, n); }
    }
  }

  /** One step of a body that is finished and holds its permit, and the step to it. */
  lemma HoldingStep(p: Pool, e: Event, permit: nat)
    requires Enabled(p, e) && Conserved(p)
    ensures OwnerOf(Step(p, e), permit) == Some(Reading(true, true)) <==>
            FinishesHolding(p, e, permit) || (OwnerOf(p, permit) == Some(Reading(true, true)) && LeavesAlone(e, permit))
  {
    hide Holders;
  }

  /**
    A finished body holds a permit if and only if it was finished by a blocking read that returned bytes
    or an error, and since then nothing but reads into empty buffers was done with it. A body finished
    by an asynchronous read or by encoded completion never does.
  */
  lemma {:induction false} FinishedAndHolding(size: Option<nat>, states: seq<Pool>, events: seq<Event>, n: nat,
    permit: nat)
    requires Run(size, states, events) && n <= |events|
    ensures OwnerOf(states[n], permit) == Some(Reading(true, true)) <==>
            HeldSinceFinished(states, events, permit, n)
  {
    if n > 0 {
      hide Step, Enabled, OwnerOf, Conserved, FinishesHolding, LeavesAlone, HeldSinceFinished;
      var p, e := states[n - 1], events[n - 1];
      assert Enabled(p, e) && Next(p, e, states[n - 1 + 1]);
      ReachableConserved(size, states, events, n - 1);
      HoldingStep(p, e, permit);
      FinishedAndHolding(size, states, events, n - 1, permit);
      SinceExtended(states, events, permit, n - 1);
    }
  }

  // ----- the objects -----

  class Semaphore {
    var free: nat

    constructor (n: nat)
      ensures free == n
    {
      free := n;
    }

    /** Called when a permit is there; until then the send waits. */
    method Acquire()
      requires free > 0
      modifies this
      ensures free == old(free) - 1
    {
      free := free - 1;
    }
  }

  class AdapterResponseBody {
    const inner: ResponseBody
    const semaphore: Semaphore?  // null for a pool that does not block
    var permit: bool
    var gone: bool

    ghost predicate Valid()
      reads this, inner
    {
      inner.Valid() && (gone ==> !permit) && (!gone && !inner.IsTerminal() ==> permit)
    }

    /** The owner this body is in the protocol. */
    ghost function Value(): Option<Owner>
      reads this, inner
    {
      if gone then None else Some(Reading(inner.IsTerminal(), permit))
    }

    constructor (inner: ResponseBody, semaphore: Semaphore?)
      requires inner.Valid() && !inner.IsTerminal()
      ensures Valid() && this.inner == inner && this.semaphore == semaphore && Value() == Some(Reading(false, true))
    {
      this.inner, this.semaphore, permit, gone := inner, semaphore, true, false;
    }

    /** Dropping a permit gives it back, once. */
    method Release()
      modifies this`permit, semaphore
      ensures !permit
      ensures semaphore != null ==> semaphore.free == old(semaphore.free) + if old(permit) then 1 else 0
    {
      if permit && semaphore != null { semaphore.free := semaphore.free + 1; }
      permit := false;
    }

    /** The semaphore gains a permit exactly when the owner stops holding one. */
    twostate predicate Balanced()
      reads this, inner, semaphore
    {
      semaphore != null ==>
        semaphore.free == old(semaphore.free) + if Holds(old(Value())) && !Holds(Value()) then 1 else 0
    }

    method ReadInto(size: nat) returns (r: Result<Bytes, ()>)
      requires Valid() && !gone
      modifies this`permit, inner, semaphore
      ensures Valid() && Balanced()
      ensures var op := Read(size, if r.Ok? then Some(|r.value|) else None, old(inner.FinishedBy(size)));
              Possible(old(inner.IsTerminal()), op) && Value() == After(old(permit), op)
      ensures Value() == Some(Reading(true, true)) <==>
              old(permit && inner.FinishedBy(size) && (size > 0 && inner.Left() == [] ==> inner.Fails()))
      ensures permit <==> old(permit) && !(r.Ok? && r.value == [] && size > 0)
      ensures r.Ok? ==> r.value == old(inner.Available()[..Min(size, |inner.Available()|)])
      ensures r.Ok? ==> old(inner.Left()) == r.value + inner.Left() && (inner.Fails() <==> old(inner.Fails()))
      ensures r.Ok? && r.value == [] && size > 0 ==> inner.Left() == [] && !inner.Fails()
      ensures r.Err? <==> size > 0 && old(inner.Left()) == [] && old(inner.Fails())
    {
      r := inner.Read(size);
      if r.Ok? && r.value == [] && size != 0 { Release(); }
    }

    /** `read_async` and `read_frame_async`; on an error the body is dropped with its permit. */
    method ReadOwned(amount: Option<nat>, allowEncoded: bool, fill: bool) returns (r: Result<Bytes, ()>)
      requires Valid() && !gone
      modifies this, inner, semaphore
      ensures Valid() && Balanced()
      ensures var op := ReadAsync(r.Ok?, inner.IsTerminal());
              Possible(old(inner.IsTerminal()), op) && Value() == After(old(permit), op)
      ensures r.Ok? ==> !gone && (permit <==> old(permit) && !inner.IsTerminal())
      ensures r.Ok? ==> old(inner.Left()) == r.value + inner.Left()
      ensures r.Err? ==> gone && !permit && old(inner.Left()) == [] && old(inner.Fails())
    {
      r := inner.ReadAsync(amount, allowEncoded, fill);
      if r.Err? {
        Release();
        gone := true;
      } else if inner.IsTerminal() {
        Release();
      }
    }

    method FinishEncodedDeclaredLength()
      requires Valid() && !gone
      modifies this`permit, inner, semaphore
      ensures Valid() && Balanced() && inner.Left() == old(inner.Left())
      ensures permit <==> old(permit) && !inner.IsTerminal()
      ensures var op := FinishEncoded(inner.IsTerminal());
              Possible(old(inner.IsTerminal()), op) && Value() == After(old(permit), op)
    {
      inner.FinishIfBufferEmpty(true);
      if inner.IsTerminal() { Release(); }
    }

    method Close()
      requires Valid() && !gone
      modifies this, semaphore
      ensures Valid() && Balanced()
      ensures Value() == After(old(permit), Discard) && gone && !permit
    {
      Release();
      gone := true;
    }
  }

  /** Reading a body to its end, with blocking reads of any positive size, gives the permit back. */
  method ReadToEnd(body: AdapterResponseBody, size: nat) returns (all: Bytes, failed: bool)
    requires body.Valid() && !body.gone && size > 0
    modifies body, body.inner, body.semaphore
    ensures body.Valid()
    ensures all == old(body.inner.Left()) && (failed <==> old(body.inner.Fails()))
    ensures !failed ==> !body.permit
    ensures failed ==> body.permit == old(body.permit) && body.inner.IsTerminal()
  {
    all := [];
    while true
      invariant body.Valid() && !body.gone && body.permit == old(body.permit)
      invariant old(body.inner.Left()) == all + body.inner.Left() && (body.inner.Fails() <==> old(body.inner.Fails()))
      decreases |body.inner.Left()|
    {
      var r := body.ReadInto(size);
      if r.Err? { return all, true; }
      if r.value == [] { return all, false; }
      all := all + r.value;
    }
  }

  /**
    A finished body that holds its permit, made with the objects: a body of declared length, not encoded, whose
    bytes arrive in one frame and are read into a buffer with room for them. Its life is a run of the protocol.
  */
  method FinishedHoldingIsReachable(n: nat, bytes: Bytes, size: nat)
    returns (body: AdapterResponseBody, semaphore: Semaphore, ghost states: seq<Pool>, ghost events: seq<Event>)
    requires n > 0 && 0 < |bytes| <= size
    ensures body.Valid() && body.semaphore == semaphore && body.Value() == Some(Reading(true, true))
              && semaphore.free == n - 1
    ensures Run(Some(n), states, events)
    ensures var p := states[|events|]; OwnerOf(p, 0) == body.Value() && p.free == semaphore.free
  {
    semaphore := new Semaphore(n);
    semaphore.Acquire();
    var wire := new ResponseBody(Stream([Data(bytes)], 0, Some(|bytes|), false, false));
    body := new AdapterResponseBody(wire, semaphore);
    assert Rest([Data(bytes)]) == bytes && bytes[..|bytes|] == bytes;
    var r := body.ReadInto(size);
    assert r == Ok(bytes);
    states, events := HoldingRun(n, size, |bytes|);
  }

  lemma HoldingRun(n: nat, size: nat, count: nat) returns (states: seq<Pool>, events: seq<Event>)
    requires n > 0 && 0 < count <= size
    ensures Run(Some(n), states, events)
    ensures var p := states[|events|]; OwnerOf(p, 0) == Some(Reading(true, true)) && p.free == n - 1
  {
    var e0, e1, e2, e3 := Acquire, Answer(0), IntoBody(0), Operate(0, Read(size, Some(count), true));
    var s0 := Initial(Some(n));
    var s1 := Pool(Some(n), n - 1, map[0 := Sending], 1, multiset{});
    var s2 := s1.(owners := map[0 := Responding]);
    var s3 := s1.(owners := map[0 := Reading(false, true)]);
    var s4 := s1.(owners := map[0 := Reading(true, true)]);
    assert Next(s0, e0, s1) && Next(s1, e1, s2) && Next(s2, e2, s3) && Next(s3, e3, s4);
    states, events := [s0, s1, s2, s3, s4], [e0, e1, e2, e3];
    hide Next;
  }
}
