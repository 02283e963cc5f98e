/**
  One realm of connection pools inside a side-table entry: a map from pool key to pool and a
  deque of keys in order of use, bounded by `pool_connections`.
*/
module PoolRealm {
  import opened Prelude

  type Key = int   // pool keys are only ever compared for equality
  type Pool = nat  // the identity of an `AdapterPool`

  datatype Realm = Realm(pools: map<Key, Pool>, order: seq<Key>)

  const EMPTY := Realm(map[], [])

  /** What the locked half of `adapter_pool` does to a realm. `Panic` is the failing `expect`. */
  datatype Admission = Panic | Admitted(realm: Realm, pool: Pool, evicted: seq<Pool>)

  function Without(order: seq<Key>, key: Key): seq<Key> {
    if order == [] then []
    else if order[0] == key then Without(order[1..], key)
    else [order[0]] + Without(order[1..], key)
  }

  /** Pop least recently used keys until there is room for one more pool. */
  function Evict(realm: Realm, capacity: nat): (r: (Realm, seq<Pool>))
    decreases |realm.order|
  {
    if capacity == 0 || |realm.pools| < capacity || realm.order == [] then (realm, [])
    else
      var key := realm.order[0];
      var (rest, evicted) := Evict(Realm(realm.pools - {key}, realm.order[1..]), capacity);
      (rest, if key in realm.pools then [realm.pools[key]] + evicted else evicted)
  }

  function Touch(order: seq<Key>, key: Key, capacity: nat): seq<Key> {
    Without(order, key) + (if capacity > 0 then [key] else [])
  }

  function Admit(realm: Realm, key: Key, candidate: Option<Pool>, capacity: nat): Admission {
    if key in realm.pools then
      Admitted(realm.(order := Touch(realm.order, key, capacity)), realm.pools[key], [])
    else if candidate.None? then Panic
    else
      var (room, evicted) := Evict(realm, capacity);
      var pools := if capacity > 0 then room.pools[key := candidate.value] else room.pools;
      Admitted(Realm(pools, Touch(room.order, key, capacity)), candidate.value, evicted)
  }

  /** One turn of the eviction loop. */
  lemma EvictOne(realm: Realm, capacity: nat, before: seq<Pool>)
    requires 0 < capacity <= |realm.pools| && realm.order != []
    ensures var key := realm.order[0];
            var rest := Evict(Realm(realm.pools - {key}, realm.order[1..]), capacity);
            && Evict(realm, capacity).0 == rest.0
            && before + Evict(realm, capacity).1 ==
              (if key in realm.pools then before + [realm.pools[key]] else before) + rest.1
  {
    var key := realm.order[0];
    var rest := Evict(Realm(realm.pools - {key}, realm.order[1..]), capacity);
    if key in realm.pools { Regroup(before, [realm.pools[key]], rest.1); }
  }

  lemma EvictNone(realm: Realm, capacity: nat)
    requires capacity == 0 || |realm.pools| < capacity || realm.order == []
    ensures Evict(realm, capacity) == (realm, [])
  {
  }

  // ----- the pools of a realm -----

  /** No two slots of a map of pools hold the same pool. */
  ghost predicate Injective(pools: map<Key, Pool>) {
    forall j, k :: j in pools && k in pools && pools[j] == pools[k] ==> j == k
  }

  ghost function Values(pools: map<Key, Pool>): set<Pool> { set k | k in pools :: pools[k] }

  ghost function Elements(pools: seq<Pool>): set<Pool> { set p | p in pools }

  /** In a list without repetition every pool occurs once. */
  lemma {:induction false} ListedOnce(pools: seq<Pool>)
    requires NoRepeats(pools)
    ensures multiset(pools) == multiset(Elements(pools))
  {
    if pools != [] {
      ListedOnce(pools[1..]);
      assert pools == [pools[0]] + pools[1..];
      assert Elements(pools) == {pools[0]} + Elements(pools[1..]) && pools[0] !in pools[1..];
    }
  }

  lemma {:induction false} EvictValues(realm: Realm, capacity: nat)
    requires Injective(realm.pools)
    ensures var (room, evicted) := Evict(realm, capacity);
            && Injective(room.pools) && room.pools.Keys <= realm.pools.Keys
            && Elements(evicted) <= Values(realm.pools) && NoRepeats(evicted)
            && Values(room.pools) == Values(realm.pools) - Elements(evicted)
    decreases |realm.order|
  {
    if capacity > 0 && |realm.pools| >= capacity && realm.order != [] {
      var key := realm.order[0];
      var rest := Realm(realm.pools - {key}, realm.order[1..]);
      ValuesWithout(realm.pools, key);
      EvictValues(rest, capacity);
      var (room, evicted) := Evict(rest, capacity);
      hide Values, Injective;
      if key in realm.pools {
        assert Elements([realm.pools[key]] + evicted) == {realm.pools[key]} + Elements(evicted);
        assert realm.pools[key] !in Elements(evicted);
      }
    } else {
      assert Elements([]) == {};
    }
  }

  lemma ValuesWithout(pools: map<Key, Pool>, key: Key)
    requires Injective(pools)
    ensures Injective(pools - {key})
    ensures Values(pools - {key}) == Values(pools) - if key in pools then {pools[key]} else {}
    ensures key in pools ==> pools[key] in Values(pools)
  {
    var rest := pools - {key};
    forall p | p in Values(pools) && (key in pools ==> p != pools[key]) ensures p in Values(rest) {
      var k :| k in pools && pools[k] == p;
      assert rest[k] == p;
    }
  }

  lemma AdmitValues(realm: Realm, key: Key, candidate: Option<Pool>, capacity: nat)
    requires Injective(realm.pools)
    requires candidate.Some? ==> candidate.value !in Values(realm.pools)
    requires Admit(realm, key, candidate, capacity).Admitted?
    ensures var Admitted(after, pool, evicted) := Admit(realm, key, candidate, capacity);
            var added := if key !in realm.pools && capacity > 0 then {candidate.value} else {};
            && Injective(after.pools)
            && Elements(evicted) <= Values(realm.pools) && NoRepeats(evicted)
            && Values(after.pools) == Values(realm.pools) - Elements(evicted) + added
            && (key in after.pools <==> key in realm.pools || capacity > 0)
            && (key in after.pools && key !in realm.pools ==> after.pools[key] == candidate.value)
  {
    if key in realm.pools {
      assert Elements([]) == {};
    } else {
      EvictValues(realm, capacity);
      var room := Evict(realm, capacity).0;
      hide Evict, Elements, Touch, Values, Injective;
      if capacity > 0 { ValuesWith(room.pools, key, candidate.value); }
    }
  }

  lemma ValuesWith(pools: map<Key, Pool>, key: Key, pool: Pool)
    requires Injective(pools) && key !in pools && pool !in Values(pools)
    ensures Injective(pools[key := pool]) && Values(pools[key := pool]) == Values(pools) + {pool}
  {
    var all := pools[key := pool];
    forall p | p in Values(pools) + {pool} ensures p in Values(all) {
      if p == pool {
        assert all[key] == pool;
      } else {
        var k :| k in pools && pools[k] == p;
        assert all[k] == p;
      }
    }
  }

  /** Eviction only removes keys. */
  lemma {:induction false} EvictRemoves(realm: Realm, capacity: nat)
    ensures var room := Evict(realm, capacity).0;
            forall k :: k in room.pools ==> k in realm.pools && room.pools[k] == realm.pools[k]
    decreases |realm.order|
  {
    if capacity > 0 && |realm.pools| >= capacity && realm.order != [] {
      EvictRemoves(Realm(realm.pools - {realm.order[0]}, realm.order[1..]), capacity);
    }
  }

  /**
    Which pool an admission hands out: the one the realm held under the key, or else the candidate; afterwards the realm
    holds it under the key, unless there was no room for a candidate at all. No other key gets another pool.
  */
  lemma AdmitHandsOut(realm: Realm, key: Key, candidate: Option<Pool>, capacity: nat)
    requires key in realm.pools || candidate.Some?
    ensures Admit(realm, key, candidate, capacity).Admitted?
    ensures var Admitted(after, pool, _) := Admit(realm, key, candidate, capacity);
            && (key in realm.pools ==> pool == realm.pools[key])
            && (key !in realm.pools ==> pool == candidate.value)
            && (key in after.pools <==> key in realm.pools || capacity > 0)
            && (key in after.pools ==> after.pools[key] == pool)
            && (forall k :: k in after.pools && k != key ==> k in realm.pools && after.pools[k] == realm.pools[k])
  {
    EvictRemoves(realm, capacity);
    hide Evict, Touch;
  }

  /** The realm as the source updates it in place. */
  class MutableRealm {
    var pools: map<Key, Pool>
    var order: seq<Key>

    ghost function Value(): Realm
      reads this
    {
      Realm(pools, order)
    }

    constructor (realm: Realm)
      ensures Value() == realm
    {
      pools, order := realm.pools, realm.order;
    }

    /** The eviction loop. */
    method MakeRoom(capacity: nat) returns (evicted: seq<Pool>)
      modifies this
      ensures Value() == Evict(old(Value()), capacity).0 && evicted == Evict(old(Value()), capacity).1
    {
      hide Evict;
      evicted := [];
      while |pools| >= capacity && capacity > 0
        invariant Evict(old(Value()), capacity).0 == Evict(Value(), capacity).0
        invariant Evict(old(Value()), capacity).1 == evicted + Evict(Value(), capacity).1
        decreases |order|
      {
        if order == [] { break; }
        EvictOne(Value(), capacity, evicted);
        var first := order[0];
        if first in pools { evicted := evicted + [pools[first]]; }
        pools, order := pools - {first}, order[1..];
      }
      EvictNone(Value(), capacity);
    }

    method AdmitPool(key: Key, candidate: Option<Pool>, capacity: nat) returns (pool: Option<Pool>, evicted: seq<Pool>)
      modifies this
      ensures match Admit(old(Value()), key, candidate, capacity)
              case Panic => pool == None && evicted == [] && Value() == old(Value())
              case Admitted(realm, p, out) => pool == Some(p) && evicted == out && Value() == realm
      ensures Injective(old(pools)) ==> NoRepeats(evicted)
      ensures pool.None? <==> key !in old(pools) && candidate.None?
      ensures pool.Some? ==> pool == if key in old(pools) then Some(old(pools)[key]) else candidate
      ensures pool.Some? && (capacity > 0 || key in old(pools)) ==> key in pools && pools[key] == pool.value
      ensures forall k :: k in pools && k != key ==> k in old(pools) && pools[k] == old(pools)[k]
    {
      hide Evict;
      evicted := [];
      if key in pools {
        pool := Some(pools[key]);
      } else {
        if candidate.None? { return None, []; }
        if Injective(pools) { EvictValues(Value(), capacity); }
        EvictRemoves(Value(), capacity);
        evicted := MakeRoom(capacity);
        if capacity > 0 { pools := pools[key := candidate.value]; }
        pool := candidate;
      }
      order := Without(order, key);
      if capacity > 0 { order := order + [key]; }
    }
  }

  // ----- the realm invariant -----

  ghost function Members(order: seq<Key>): set<Key> {
    set k | k in order
  }

  /** The deque lists each resident key once, and nothing else. */
  ghost predicate Ordered(realm: Realm) {
    NoRepeats(realm.order) && Members(realm.order) == realm.pools.Keys
  }

  lemma {:induction false} MembersCounted(order: seq<Key>)
    requires NoRepeats(order)
    ensures |Members(order)| == |order|
  {
    if order != [] {
      MembersCounted(order[1..]);
      assert Members(order) == {order[0]} + Members(order[1..]);
    }
  }

  lemma {:induction false} WithoutMembers(order: seq<Key>, key: Key)
    ensures Members(Without(order, key)) == Members(order) - {key}
  {
    if order != [] {
      WithoutMembers(order[1..], key);
      assert Members(order) == {order[0]} + Members(order[1..]);
      var rest := Without(order[1..], key);
      assert Members([order[0]] + rest) == {order[0]} + Members(rest);
    }
  }

  lemma {:induction false} WithoutKeeps(order: seq<Key>, key: Key)
    requires NoRepeats(order)
    ensures NoRepeats(Without(order, key))
    ensures |Without(order, key)| == |order| - if key in order then 1 else 0
    ensures key !in order ==> Without(order, key) == order
  {
    if order != [] {
      var rest := order[1..];
      WithoutKeeps(rest, key);
      WithoutMembers(rest, key);
      assert order[0] !in rest && order[0] !in Members(Without(rest, key));
      NoRepeatsAfter(order[0], Without(rest, key));
      hide NoRepeats;
    }
  }

  lemma NoRepeatsAfter(key: Key, order: seq<Key>)
    requires NoRepeats(order) && key !in order
    ensures NoRepeats([key] + order)
  {
  }

  lemma {:induction false} WithoutAppend(a: seq<Key>, b: seq<Key>, key: Key)
    ensures Without(a + b, key) == Without(a, key) + Without(b, key)
  {
    if a == [] {
      assert a + b == b;
    } else {
      assert (a + b)[0] == a[0] && (a + b)[1..] == a[1..] + b;
      WithoutAppend(a[1..], b, key);
      Regroup([a[0]], Without(a[1..], key), Without(b, key));
    }
  }

  // ----- LRU -----

  /** The distinct keys used so far, from least to most recently used. */
  ghost function Recency(uses: seq<Key>): (r: seq<Key>)
    ensures NoRepeats(r) && Members(r) == Members(uses)
  {
    if uses == [] then []
    else
      var last := uses[|uses| - 1];
      var earlier := Recency(uses[..|uses| - 1]);
      WithoutKeeps(earlier, last);
      WithoutMembers(earlier, last);
      assert last !in Members(Without(earlier, last));
      MembersAppend(Without(earlier, last), last);
      MembersAppend(uses[..|uses| - 1], last);
      assert uses == uses[..|uses| - 1] + [last];
      Without(earlier, last) + [last]
  }

  ghost function Last(s: seq<Key>, n: nat): seq<Key> {
    if |s| <= n then s else s[|s| - n..]
  }

  /** A realm after a sequence of admissions: each use either hits or brings a fresh candidate. */
  ghost function Uses(uses: seq<Key>, candidates: seq<Pool>, capacity: nat): Realm
    requires |candidates| == |uses|
  {
    if uses == [] then EMPTY
    else
      var n := |uses| - 1;
      Admit(Uses(uses[..n], candidates[..n], capacity), uses[n], Some(candidates[n]), capacity).realm
  }

  lemma {:induction false} EvictKeeps(realm: Realm, capacity: nat)
    requires Ordered(realm) && 0 < capacity && |realm.pools| <= capacity
    ensures var (room, evicted) := Evict(realm, capacity);
            if |realm.pools| < capacity then room == realm && evicted == []
            else
              && room == Realm(realm.pools - {realm.order[0]}, realm.order[1..])
              && evicted == [realm.pools[realm.order[0]]]
  {
    MembersCounted(realm.order);
    if |realm.pools| == capacity {
      var key := realm.order[0];
      assert key in Members(realm.order);
      var rest := Realm(realm.pools - {key}, realm.order[1..]);
      assert rest.pools.Keys == realm.pools.Keys - {key};
      assert |rest.pools| == capacity - 1;
      assert Evict(rest, capacity) == (rest, []);
    }
  }

  lemma MembersAppend(order: seq<Key>, key: Key)
    ensures Members(order + [key]) == Members(order) + {key}
  {
  }

  lemma HitOrder(realm: Realm, key: Key, candidate: Pool, capacity: nat)
    requires Ordered(realm) && 0 < capacity && |realm.pools| <= capacity && key in realm.pools
    ensures var a := Admit(realm, key, Some(candidate), capacity);
            && a.Admitted? && Ordered(a.realm) && |a.realm.pools| <= capacity
            && a.realm.order == Last(Without(realm.order, key) + [key], capacity)
  {
    MembersCounted(realm.order);
    assert key in Members(realm.order);
    WithoutKeeps(realm.order, key);
    WithoutMembers(realm.order, key);
    var rest := Without(realm.order, key);
    MembersAppend(rest, key);
    assert key !in Members(rest);
  }

  lemma PoppedOrdered(realm: Realm)
    requires Ordered(realm) && realm.order != []
    ensures Ordered(Realm(realm.pools - {realm.order[0]}, realm.order[1..]))
  {
    var first, rest := realm.order[0], realm.order[1..];
    assert realm.order == [first] + rest;
    assert Members(realm.order) == {first} + Members(rest);
    assert first !in Members(rest);
  }

  /** A miss evicts the least recently used key exactly when the realm is full. */
  lemma MissResult(realm: Realm, key: Key, candidate: Pool, capacity: nat)
    requires Ordered(realm) && 0 < capacity && |realm.pools| <= capacity && key !in realm.pools
    ensures var a := Admit(realm, key, Some(candidate), capacity);
            var room := if |realm.pools| < capacity then realm
                        else Realm(realm.pools - {realm.order[0]}, realm.order[1..]);
            && Ordered(room) && |room.pools| < capacity && key !in room.pools
            && a.Admitted? && a.realm == Realm(room.pools[key := candidate], room.order + [key])
  {
    MembersCounted(realm.order);
    EvictKeeps(realm, capacity);
    var room := Evict(realm, capacity).0;
    hide Evict;
    if |realm.pools| == capacity {
      PoppedOrdered(realm);
      assert realm.order[0] in Members(realm.order);
      assert room.pools.Keys == realm.pools.Keys - {realm.order[0]};
      assert |room.pools| == |room.pools.Keys|;
    }
    assert key !in Members(room.order);
    WithoutKeeps(room.order, key);
  }

  lemma MissOrder(realm: Realm, key: Key, candidate: Pool, capacity: nat)
    requires Ordered(realm) && 0 < capacity && |realm.pools| <= capacity && key !in realm.pools
    ensures var a := Admit(realm, key, Some(candidate), capacity);
            && a.Admitted? && Ordered(a.realm) && |a.realm.pools| <= capacity
            && a.realm.order == Last(Without(realm.order, key) + [key], capacity)
  {
    hide Admit, Without, NoRepeats;
    MissResult(realm, key, candidate, capacity);
    assert Without(realm.order, key) == realm.order by {
      assert key !in Members(realm.order);
      WithoutKeeps(realm.order, key);
    }
    MembersCounted(realm.order);
    if |realm.pools| < capacity {
      AppendedOrdered(realm, key, candidate);
    } else {
      var room := Realm(realm.pools - {realm.order[0]}, realm.order[1..]);
      AppendedOrdered(room, key, candidate);
      hide Ordered, Members;
      LastOfPushed(realm.order, key, capacity);
    }
  }

  lemma LastOfPushed(order: seq<Key>, key: Key, capacity: nat)
    requires 0 < capacity == |order|
    ensures Last(order + [key], capacity) == order[1..] + [key]
  {
  }

  lemma AppendedOrdered(realm: Realm, key: Key, pool: Pool)
    requires Ordered(realm) && key !in realm.pools
    ensures var r := Realm(realm.pools[key := pool], realm.order + [key]);
            Ordered(r) && |r.pools| == |r.order| == |realm.pools| + 1
  {
    var r := Realm(realm.pools[key := pool], realm.order + [key]);
    assert key !in Members(realm.order);
    MembersAppend(realm.order, key);
    assert r.pools.Keys == realm.pools.Keys + {key};
    MembersCounted(r.order);
  }

  /** One admission, in terms of the order of use alone. */
  lemma AdmitOrder(realm: Realm, key: Key, candidate: Pool, capacity: nat)
    requires Ordered(realm) && |realm.pools| <= capacity
    ensures var a := Admit(realm, key, Some(candidate), capacity);
            && a.Admitted? && Ordered(a.realm) && |a.realm.pools| <= capacity
            && a.realm.order == Last(Without(realm.order, key) + [key], capacity)
  {
    hide Admit, Ordered;
    if capacity == 0 {
      NoRoom(realm, key, candidate);
    } else if key in realm.pools {
      HitOrder(realm, key, candidate, capacity);
    } else {
      MissOrder(realm, key, candidate, capacity);
    }
  }

  /** Without any capacity a realm stays empty. */
  lemma NoRoom(realm: Realm, key: Key, candidate: Pool)
    requires Ordered(realm) && |realm.pools| == 0
    ensures realm == EMPTY && Admit(realm, key, Some(candidate), 0) == Admitted(EMPTY, candidate, [])
  {
    MembersCounted(realm.order);
    assert |realm.order| == 0;
  }

  /** Forgetting all but the last `capacity` keys commutes with one more use. */
  lemma LastOfTouched(order: seq<Key>, key: Key, capacity: nat)
    requires NoRepeats(order)
    ensures Last(Without(Last(order, capacity), key) + [key], capacity) == Last(Without(order, key) + [key], capacity)
  {
    hide Without, NoRepeats;
    if 0 < capacity < |order| {
      var n := |order| - capacity;
      var older, recent := order[..n], order[n..];
      assert order == older + recent;
      WithoutAppend(older, recent, key);
      assert NoRepeats(recent) by { NoRepeatsIn(order, n); }
      WithoutKeeps(recent, key);
      LastOfSuffix(Without(older, key), Without(recent, key) + [key], capacity);
      Regroup(Without(older, key), Without(recent, key), [key]);
    }
  }

  lemma NoRepeatsIn(order: seq<Key>, n: nat)
    requires NoRepeats(order) && n <= |order|
    ensures NoRepeats(order[n..])
  {
  }

  lemma LastOfSuffix(a: seq<Key>, b: seq<Key>, n: nat)
    requires n <= |b|
    ensures Last(a + b, n) == Last(b, n)
  {
  }

  /**
    LRU refinement: for a constant capacity, after any sequence of admissions the deque
    is exactly the last `capacity` distinct keys used, from least to most recently used, and
    those are the keys of the map.
  */
  lemma {:induction false} LruRefinement(uses: seq<Key>, candidates: seq<Pool>, capacity: nat)
    requires |candidates| == |uses|
    ensures var realm := Uses(uses, candidates, capacity);
            Ordered(realm) && |realm.pools| <= capacity && realm.order == Last(Recency(uses), capacity)
  {
    if uses != [] {
      var n := |uses| - 1;
      LruRefinement(uses[..n], candidates[..n], capacity);
      AdmitOrder(Uses(uses[..n], candidates[..n], capacity), uses[n], candidates[n], capacity);
      LastOfTouched(Recency(uses[..n]), uses[n], capacity);
    }
  }

  /** The index of the last use of `key`. */
  ghost predicate LastUse(uses: seq<Key>, i: nat, key: Key) {
    i < |uses| && uses[i] == key && key !in uses[i + 1..]
  }

  /** Using another key leaves the keys behind `key` in place and adds the used one. */
  lemma TouchedPosition(earlier: seq<Key>, q: nat, key: Key, last: Key) returns (p: nat)
    requires q < |earlier| && earlier[q] == key && last != key
    ensures var r := Without(earlier, last) + [last];
            p < |r| && r[p] == key && Members(r[p + 1..]) == Members(earlier[q + 1..]) + {last}
  {
    var front, back := earlier[..q], earlier[q + 1..];
    assert earlier == front + ([key] + back);
    WithoutAppend(front, [key] + back, last);
    WithoutAppend([key], back, last);
    assert Without([key], last) == [key];
    p := |Without(front, last)|;
    var r := Without(earlier, last) + [last];
    assert r == Without(front, last) + ([key] + (Without(back, last) + [last]));
    assert r[p + 1..] == Without(back, last) + [last];
    MembersAppend(Without(back, last), last);
    WithoutMembers(back, last);
  }

  /** In the order of recency, the keys behind `key` are those used since its last use. */
  lemma {:induction false} RecencyPosition(uses: seq<Key>, i: nat, key: Key) returns (p: nat)
    requires LastUse(uses, i, key)
    ensures p < |Recency(uses)| && Recency(uses)[p] == key
    ensures Members(Recency(uses)[p + 1..]) == Members(uses[i + 1..])
  {
    var n := |uses| - 1;
    var last := uses[n];
    assert Recency(uses) == Without(Recency(uses[..n]), last) + [last];
    hide Recency, Without;
    if i == n {
      p := |Recency(uses)| - 1;
    } else {
      assert uses[i + 1..] == uses[..n][i + 1..] + [last];
      MembersAppend(uses[..n][i + 1..], last);
      var q := RecencyPosition(uses[..n], i, key);
      p := TouchedPosition(Recency(uses[..n]), q, key, last);
    }
  }

  lemma InLast(r: seq<Key>, p: nat, capacity: nat)
    requires NoRepeats(r) && p < |r|
    ensures r[p] in Last(r, capacity) <==> |Members(r[p + 1..])| < capacity
  {
    MembersCounted(r[p + 1..]);
    var cut := if |r| <= capacity then 0 else |r| - capacity;
    var last := Last(r, capacity);
    assert forall k :: 0 <= k < |last| ==> last[k] == r[cut + k];
    if p >= cut { assert last[p - cut] == r[p]; }
  }

  lemma LastIffRecent(uses: seq<Key>, capacity: nat, i: nat, key: Key)
    requires LastUse(uses, i, key)
    ensures key in Last(Recency(uses), capacity) <==> |Members(uses[i + 1..])| < capacity
  {
    hide Last, NoRepeats, Recency;
    var p := RecencyPosition(uses, i, key);
    InLast(Recency(uses), p, capacity);
  }

  lemma {:induction false} FindLastUse(uses: seq<Key>, key: Key) returns (i: nat)
    requires key in uses
    ensures LastUse(uses, i, key)
  {
    var n := |uses| - 1;
    if uses[n] == key {
      i := n;
    } else {
      i := FindLastUse(uses[..n], key);
      assert uses[i + 1..] == uses[..n][i + 1..] + [uses[n]];
    }
  }

  /** A key is resident exactly when fewer than `capacity` distinct keys were used since its last use. */
  lemma ResidentIffRecent(uses: seq<Key>, candidates: seq<Pool>, capacity: nat, i: nat, key: Key)
    requires |candidates| == |uses| && LastUse(uses, i, key)
    ensures key in Uses(uses, candidates, capacity).pools <==> |Members(uses[i + 1..])| < capacity
  {
    hide Uses, Last, NoRepeats;
    LruRefinement(uses, candidates, capacity);
    var realm := Uses(uses, candidates, capacity);
    LastIffRecent(uses, capacity, i, key);
    assert key in realm.pools <==> key in Members(realm.order);
  }
}
