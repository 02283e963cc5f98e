/** Transport adapters mounted on URL prefixes: an ordered dictionary searched for the first match. */
module Mounting {
  import opened Prelude

  type Adapter = int

  datatype Mount = Mount(prefix: string, adapter: Adapter)

  // ----- the ordered dictionary -----

  /** `d[key] = value`: replaced in place, or appended. */
  function Assign(d: seq<Mount>, m: Mount): seq<Mount> {
    if d == [] then [m]
    else if d[0].prefix == m.prefix then [m] + d[1..]
    else [d[0]] + Assign(d[1..], m)
  }

  /** The items of `d` with prefixes of length `n` or more, and the others. */
  function Long(d: seq<Mount>, n: nat): seq<Mount> {
    if d == [] then [] else if |d[0].prefix| >= n then [d[0]] + Long(d[1..], n) else Long(d[1..], n)
  }

  function Short(d: seq<Mount>, n: nat): seq<Mount> {
    if d == [] then [] else if |d[0].prefix| < n then [d[0]] + Short(d[1..], n) else Short(d[1..], n)
  }

  /** The meaning of `mount`: assign, then move every shorter prefix behind, in order. */
  function Mounted(d: seq<Mount>, m: Mount): seq<Mount> {
    Long(Assign(d, m), |m.prefix|) + Short(Assign(d, m), |m.prefix|)
  }

  function Pop(d: seq<Mount>, prefix: string): seq<Mount> {
    if d == [] then [] else if d[0].prefix == prefix then d[1..] else [d[0]] + Pop(d[1..], prefix)
  }

  function Find(d: seq<Mount>, prefix: string): Option<Adapter> {
    if d == [] then None else if d[0].prefix == prefix then Some(d[0].adapter) else Find(d[1..], prefix)
  }

  // ----- matching -----

  predicate Matches(url: string, prefix: string) { Lower(prefix) <= Lower(url) }

  /** A URL matches a prefix, character by character, up to the case of letters. */
  lemma MatchesMeaning(url: string, prefix: string)
    ensures Matches(url, prefix) <==>
              |prefix| <= |url| && forall i :: 0 <= i < |prefix| ==> SameLetter(url[i], prefix[i])
  {
    if |prefix| <= |url| {
      assert Lower(prefix) <= Lower(url) <==> forall i :: 0 <= i < |prefix| ==> Lower(prefix)[i] == Lower(url)[i];
      forall i | 0 <= i < |prefix| ensures Lower(prefix)[i] == Lower(url)[i] <==> SameLetter(url[i], prefix[i]) {
        assert Lower(prefix)[i] == LowerChar(prefix[i]) && Lower(url)[i] == LowerChar(url[i]);
      }
    }
  }

  predicate SameLetter(a: char, b: char) {
    || a == b
    || ('A' <= a <= 'Z' && b as int == a as int + 32)
    || ('A' <= b <= 'Z' && a as int == b as int + 32)
  }

  // ----- the session -----

  class Session {
    var adapters: seq<Mount>

    constructor ()
      ensures Valid() && adapters == []
    {
      adapters := [];
    }

    ghost predicate Valid()
      reads this
    {
      Unique(adapters)
    }

    method MountAdapter(prefix: string, adapter: Adapter)
      requires Valid()
      modifies this
      ensures Valid() && adapters == Mounted(old(adapters), Mount(prefix, adapter))
    {
      var n := |prefix|;
      adapters := Assign(adapters, Mount(prefix, adapter));
      ghost var start := adapters;
      AssignUnique(old(adapters), Mount(prefix, adapter));
      var moving := Short(adapters, n);
      assert start + [] == start;
      for i := 0 to |moving|
        invariant adapters == DropShort(start, n, i) + moving[..i]
      {
        var key := moving[i].prefix;
        Moved(start, n, i);
        var value := Find(adapters, key);
        adapters := Pop(adapters, key);
        adapters := Assign(adapters, Mount(key, value.value));
        assert moving[..i + 1] == moving[..i] + [moving[i]];
      }
      AllDropped(start, n);
      assert moving[..|moving|] == moving;
      MountedUnique(old(adapters), Mount(prefix, adapter));
    }

    /** `get_adapter`; `None` is InvalidSchema. */
    method GetAdapter(url: string) returns (r: Option<Adapter>)
      ensures r == FirstMatch(adapters, url)
    {
      for i := 0 to |adapters|
        invariant FirstMatch(adapters, url) == FirstMatch(adapters[i..], url)
      {
        assert adapters[i..][1..] == adapters[i + 1..];
        if Matches(url, adapters[i].prefix) { return Some(adapters[i].adapter); }
      }
      r := None;
    }
  }

  function FirstMatch(d: seq<Mount>, url: string): Option<Adapter> {
    if d == [] then None
    else if Matches(url, d[0].prefix) then Some(d[0].adapter)
    else FirstMatch(d[1..], url)
  }

  /** `d` without its first `i` short items. */
  ghost function DropShort(d: seq<Mount>, n: nat, i: nat): seq<Mount> {
    if i == 0 || d == [] then d
    else if |d[0].prefix| < n then DropShort(d[1..], n, i - 1)
    else [d[0]] + DropShort(d[1..], n, i)
  }

  // ----- what the loop does -----

  ghost predicate Unique(d: seq<Mount>) {
    forall i, j :: 0 <= i < j < |d| ==> d[i].prefix != d[j].prefix
  }

  /** `prefix` is a key of `d`. */
  ghost predicate Has(d: seq<Mount>, prefix: string) {
    exists i :: 0 <= i < |d| && d[i].prefix == prefix
  }

  lemma HasCons(m: Mount, d: seq<Mount>, prefix: string)
    ensures Has([m] + d, prefix) <==> m.prefix == prefix || Has(d, prefix)
  {
    if Has(d, prefix) {
      var i :| 0 <= i < |d| && d[i].prefix == prefix;
      assert ([m] + d)[i + 1].prefix == prefix;
    }
    if m.prefix == prefix { assert ([m] + d)[0].prefix == prefix; }
  }

  lemma UniqueCons(m: Mount, d: seq<Mount>)
    ensures Unique([m] + d) <==> Unique(d) && !Has(d, m.prefix)
  {
    var all := [m] + d;
    if Unique(all) {
      forall i | 0 <= i < |d| ensures d[i].prefix != m.prefix { assert all[i + 1] == d[i] && all[0] == m; }
      forall i, j | 0 <= i < j < |d| ensures d[i].prefix != d[j].prefix {
        assert all[i + 1] == d[i] && all[j + 1] == d[j];
      }
    }
  }

  lemma {:induction false} AssignUnique(d: seq<Mount>, m: Mount)
    requires Unique(d)
    ensures Unique(Assign(d, m))
    ensures forall p :: Has(Assign(d, m), p) <==> p == m.prefix || Has(d, p)
  {
    if d == [] {
      assert Assign(d, m)[0].prefix == m.prefix;
    } else {
      var rest := d[1..];
      assert d == [d[0]] + rest;
      UniqueCons(d[0], rest);
      forall p { HasCons(d[0], rest, p); }
      if d[0].prefix == m.prefix {
        UniqueCons(m, rest);
        forall p { HasCons(m, rest, p); }
      } else {
        AssignUnique(rest, m);
        UniqueCons(d[0], Assign(rest, m));
        forall p { HasCons(d[0], Assign(rest, m), p); }
      }
    }
  }

  lemma {:induction false} AssignAbsent(d: seq<Mount>, m: Mount)
    requires !Has(d, m.prefix)
    ensures Assign(d, m) == d + [m]
  {
    if d != [] {
      assert d == [d[0]] + d[1..];
      HasCons(d[0], d[1..], m.prefix);
      AssignAbsent(d[1..], m);
    }
  }

  /** The first short item is the one that is popped, since longer prefixes differ from it. */
  lemma {:induction false} PopFirstShort(d: seq<Mount>, n: nat, more: seq<Mount>)
    requires Short(d, n) != []
    ensures var m := Short(d, n)[0];
            Pop(d + more, m.prefix) == DropShort(d, n, 1) + more && Find(d + more, m.prefix) == Some(m.adapter)
  {
    assert (d + more)[1..] == d[1..] + more;
    ShortIsShort(d, n, 0);
    if |d[0].prefix| >= n {
      PopFirstShort(d[1..], n, more);
      assert [d[0]] + (DropShort(d[1..], n, 1) + more) == [d[0]] + DropShort(d[1..], n, 1) + more;
    }
  }

  lemma {:induction false} ShortDropped(d: seq<Mount>, n: nat, i: nat)
    requires i <= |Short(d, n)|
    ensures Short(DropShort(d, n, i), n) == Short(d, n)[i..]
    ensures DropShort(DropShort(d, n, i), n, 1) == DropShort(d, n, i + 1)
  {
    if d != [] && i > 0 {
      if |d[0].prefix| < n { ShortDropped(d[1..], n, i - 1); } else { ShortDropped(d[1..], n, i); }
    }
  }

  lemma {:induction false} DroppedHas(d: seq<Mount>, n: nat, i: nat, p: string)
    requires Unique(d) && i <= |Short(d, n)|
    ensures Has(DropShort(d, n, i), p) ==> Has(d, p)
    ensures Has(Short(d, n), p) ==> Has(d, p)
    ensures forall k :: 0 <= k < i ==> !Has(DropShort(d, n, i), Short(d, n)[k].prefix)
    ensures Unique(Short(d, n))
  {
    if d != [] {
      var m, rest := d[0], d[1..];
      assert d == [m] + rest;
      UniqueCons(m, rest);
      HasCons(m, rest, p);
      DroppedHas(rest, n, if |m.prefix| < n && i > 0 then i - 1 else if |m.prefix| < n then 0 else i, p);
      if |m.prefix| < n {
        UniqueCons(m, Short(rest, n));
        HasCons(m, Short(rest, n), p);
        DroppedHas(rest, n, 0, m.prefix);
        if i > 0 {
          DroppedHas(rest, n, i - 1, m.prefix);
          forall k | 0 <= k < i ensures !Has(DropShort(d, n, i), Short(d, n)[k].prefix) {
            if k > 0 { assert Short(d, n)[k] == Short(rest, n)[k - 1]; }
          }
        }
      } else {
        HasCons(m, DropShort(rest, n, i), p);
        forall k | 0 <= k < i ensures !Has(DropShort(d, n, i), Short(d, n)[k].prefix) {
          if i > 0 { HasCons(m, DropShort(rest, n, i), Short(d, n)[k].prefix); ShortIsShort(rest, n, k); }
        }
      }
    }
  }

  lemma {:induction false} ShortIsShort(d: seq<Mount>, n: nat, k: nat)
    requires k < |Short(d, n)|
    ensures |Short(d, n)[k].prefix| < n
  {
    if |d[0].prefix| < n { if k > 0 { ShortIsShort(d[1..], n, k - 1); } } else { ShortIsShort(d[1..], n, k); }
  }

  /** One turn of the loop moves the next short item behind all others. */
  lemma Moved(d: seq<Mount>, n: nat, i: nat)
    requires Unique(d) && i < |Short(d, n)|
    ensures var moving := Short(d, n);
            var now := DropShort(d, n, i) + moving[..i];
            && Find(now, moving[i].prefix) == Some(moving[i].adapter)
            && Assign(Pop(now, moving[i].prefix), moving[i]) == DropShort(d, n, i + 1) + (moving[..i] + [moving[i]])
  {
    var moving := Short(d, n);
    var m := moving[i];
    ShortDropped(d, n, i);
    PopFirstShort(DropShort(d, n, i), n, moving[..i]);
    var popped := DropShort(d, n, i + 1) + moving[..i];
    DroppedHas(d, n, i + 1, m.prefix);
    assert !Has(popped, m.prefix) by {
      assert forall k :: 0 <= k < i ==> moving[..i][k].prefix != m.prefix;
      var dropped := DropShort(d, n, i + 1);
      assert forall k :: 0 <= k < |dropped| ==> dropped[k].prefix != m.prefix;
    }
    AssignAbsent(popped, m);
  }

  lemma {:induction false} AllDropped(d: seq<Mount>, n: nat)
    ensures DropShort(d, n, |Short(d, n)|) == Long(d, n)
  {
    if d != [] { AllDropped(d[1..], n); }
  }

  // ----- contents -----

  lemma {:induction false} FindAssign(d: seq<Mount>, m: Mount, p: string)
    ensures Find(Assign(d, m), p) == if p == m.prefix then Some(m.adapter) else Find(d, p)
  {
    if d != [] { FindAssign(d[1..], m, p); }
  }

  lemma {:induction false} FindAppend(a: seq<Mount>, b: seq<Mount>, p: string)
    ensures Find(a + b, p) == if Find(a, p).Some? then Find(a, p) else Find(b, p)
  {
    if a == [] {
      assert a + b == b;
    } else {
      FindAppend(a[1..], b, p);
      assert (a + b)[1..] == a[1..] + b;
    }
  }

  lemma {:induction false} FindByLength(d: seq<Mount>, n: nat, p: string)
    ensures Find(Long(d, n), p) == if |p| >= n then Find(d, p) else None
    ensures Find(Short(d, n), p) == if |p| < n then Find(d, p) else None
  {
    if d != [] { FindByLength(d[1..], n, p); }
  }

  lemma FindMounted(d: seq<Mount>, m: Mount, p: string)
    ensures Find(Mounted(d, m), p) == if p == m.prefix then Some(m.adapter) else Find(d, p)
  {
    var x, n := Assign(d, m), |m.prefix|;
    FindAssign(d, m, p);
    FindByLength(x, n, p);
    FindAppend(Long(x, n), Short(x, n), p);
  }

  lemma {:induction false} FindHas(d: seq<Mount>, p: string)
    ensures Find(d, p).Some? <==> Has(d, p)
  {
    if d != [] {
      FindHas(d[1..], p);
      assert d == [d[0]] + d[1..];
      HasCons(d[0], d[1..], p);
    }
  }

  lemma {:induction false} ByLengthUnique(d: seq<Mount>, n: nat)
    requires Unique(d)
    ensures Unique(Long(d, n)) && Unique(Short(d, n))
  {
    if d != [] {
      var m, rest := d[0], d[1..];
      assert d == [m] + rest;
      UniqueCons(m, rest);
      ByLengthUnique(rest, n);
      FindHas(rest, m.prefix);
      FindByLength(rest, n, m.prefix);
      FindHas(Long(rest, n), m.prefix);
      FindHas(Short(rest, n), m.prefix);
      UniqueCons(m, Long(rest, n));
      UniqueCons(m, Short(rest, n));
    }
  }

  lemma MountedUnique(d: seq<Mount>, m: Mount)
    requires Unique(d)
    ensures Unique(Mounted(d, m))
  {
    var x, n := Assign(d, m), |m.prefix|;
    AssignUnique(d, m);
    ByLengthUnique(x, n);
    forall i | 0 <= i < |Short(x, n)| ensures |Short(x, n)[i].prefix| < n { ShortIsShort(x, n, i); }
    forall i | 0 <= i < |Long(x, n)| ensures |Long(x, n)[i].prefix| >= n { LongIsLong(x, n, i); }
  }

  lemma {:induction false} LongIsLong(d: seq<Mount>, n: nat, k: nat)
    requires k < |Long(d, n)|
    ensures |Long(d, n)[k].prefix| >= n
  {
    if |d[0].prefix| >= n { if k > 0 { LongIsLong(d[1..], n, k - 1); } } else { LongIsLong(d[1..], n, k); }
  }

  // ----- order -----

  /** Prefixes in order of non-increasing length. */
  ghost predicate Sorted(d: seq<Mount>) {
    forall i, j :: 0 <= i < j < |d| ==> |d[i].prefix| >= |d[j].prefix|
  }

  ghost predicate AtMost(d: seq<Mount>, n: nat) {
    forall i :: 0 <= i < |d| ==> |d[i].prefix| <= n
  }

  lemma {:induction false} AssignSorted(d: seq<Mount>, m: Mount, n: nat)
    requires Sorted(d) && n == |m.prefix|
    ensures Sorted(Long(Assign(d, m), n)) && Sorted(Short(Assign(d, m), n))
    ensures forall k: nat :: AtMost(d, k) ==>
              AtMost(Short(Assign(d, m), n), k) && (n <= k ==> AtMost(Long(Assign(d, m), n), k))
  {
    if d != [] {
      var rest := d[1..];
      assert AtMost(rest, |d[0].prefix|);
      if d[0].prefix == m.prefix {
        KeepSorted(rest, n);
        assert ([m] + rest)[1..] == rest;
        ConsSorted(m, Long(rest, n));
      } else {
        AssignSorted(rest, m, n);
        var x := Assign(rest, m);
        assert ([d[0]] + x)[1..] == x;
        if |d[0].prefix| >= n { ConsSorted(d[0], Long(x, n)); } else { ConsSorted(d[0], Short(x, n)); }
      }
    }
  }

  lemma ConsSorted(m: Mount, d: seq<Mount>)
    requires Sorted(d) && AtMost(d, |m.prefix|)
    ensures Sorted([m] + d)
  {
  }

  lemma {:induction false} KeepSorted(d: seq<Mount>, n: nat)
    requires Sorted(d)
    ensures Sorted(Long(d, n)) && Sorted(Short(d, n))
    ensures forall k: nat :: AtMost(d, k) ==> AtMost(Short(d, n), k) && AtMost(Long(d, n), k)
  {
    if d != [] {
      KeepSorted(d[1..], n);
      assert AtMost(d[1..], |d[0].prefix|);
    }
  }

  lemma MountedSorted(d: seq<Mount>, m: Mount)
    requires Sorted(d)
    ensures Sorted(Mounted(d, m))
  {
    var x, n := Assign(d, m), |m.prefix|;
    AssignSorted(d, m, n);
    forall i | 0 <= i < |Short(x, n)| ensures |Short(x, n)[i].prefix| < n { ShortIsShort(x, n, i); }
    forall i | 0 <= i < |Long(x, n)| ensures |Long(x, n)[i].prefix| >= n { LongIsLong(x, n, i); }
  }

  // ----- main result -----

  /** The dictionary after a sequence of mounts on a session that starts without adapters. */
  function MountAll(mounts: seq<Mount>): seq<Mount> {
    if mounts == [] then [] else Mounted(MountAll(mounts[..|mounts| - 1]), mounts[|mounts| - 1])
  }

  /** The adapter last mounted on exactly this prefix. */
  function LastMounted(mounts: seq<Mount>, p: string): Option<Adapter> {
    if mounts == [] then None
    else if mounts[|mounts| - 1].prefix == p then Some(mounts[|mounts| - 1].adapter)
    else LastMounted(mounts[..|mounts| - 1], p)
  }

  lemma {:induction false} MountAllSorted(mounts: seq<Mount>)
    ensures Sorted(MountAll(mounts)) && Unique(MountAll(mounts))
  {
    if mounts != [] {
      var n := |mounts| - 1;
      MountAllSorted(mounts[..n]);
      MountedSorted(MountAll(mounts[..n]), mounts[n]);
      MountedUnique(MountAll(mounts[..n]), mounts[n]);
    }
  }

  lemma {:induction false} MountAllContents(mounts: seq<Mount>, p: string)
    ensures Find(MountAll(mounts), p) == LastMounted(mounts, p)
  {
    if mounts != [] {
      var n := |mounts| - 1;
      MountAllContents(mounts[..n], p);
      FindMounted(MountAll(mounts[..n]), mounts[n], p);
    }
  }

  /** In a sorted dictionary the first match is a longest one. */
  lemma {:induction false} FirstIsLongest(d: seq<Mount>, url: string) returns (p: string)
    requires Sorted(d) && Unique(d)
    ensures FirstMatch(d, url).None? <==> forall q :: Find(d, q).Some? ==> !Matches(url, q)
    ensures FirstMatch(d, url).Some? ==>
              && Matches(url, p) && FirstMatch(d, url) == Find(d, p)
              && forall q :: Find(d, q).Some? && Matches(url, q) ==> |q| <= |p|
    ensures FirstMatch(d, url).Some? ==> forall q :: Find(d, q).Some? && Matches(url, q) && q != p ==> Precedes(d, p, q)
  {
    hide Matches, Precedes;
    p := "";
    if d != [] {
      var m, rest := d[0], d[1..];
      assert d == [m] + rest;
      UniqueCons(m, rest);
      FindHas(rest, m.prefix);
      if Matches(url, m.prefix) {
        p := m.prefix;
        forall q | Find(d, q).Some? ensures |q| <= |p| && (q != p ==> Precedes(d, p, q)) {
          FindHas(d, q);
          var i :| 0 <= i < |d| && d[i].prefix == q;
          HasCons(m, rest, q);
          PrecedesCons(m, rest, p, q);
        }
        assert Find(d, p).Some?;
      } else {
        p := FirstIsLongest(rest, url);
        forall q { PrecedesCons(m, rest, p, q); }
      }
    }
  }

  // ----- ties -----

  /** `p` comes before `q` in the dictionary. */
  ghost predicate Precedes(d: seq<Mount>, p: string, q: string) {
    exists i, j :: 0 <= i < j < |d| && d[i].prefix == p && d[j].prefix == q
  }

  lemma PrecedesCons(m: Mount, d: seq<Mount>, p: string, q: string)
    ensures Precedes([m] + d, p, q) <==> Precedes(d, p, q) || (m.prefix == p && Has(d, q))
  {
    var all := [m] + d;
    if Precedes(d, p, q) {
      var i, j :| 0 <= i < j < |d| && d[i].prefix == p && d[j].prefix == q;
      assert all[i + 1] == d[i] && all[j + 1] == d[j];
    }
    if m.prefix == p && Has(d, q) {
      var j :| 0 <= j < |d| && d[j].prefix == q;
      assert all[0] == m && all[j + 1] == d[j];
    }
    if Precedes(all, p, q) {
      var i, j :| 0 <= i < j < |all| && all[i].prefix == p && all[j].prefix == q;
      assert d[j - 1] == all[j];
      if i > 0 { assert d[i - 1] == all[i]; }
    }
  }

  /** Assigning a prefix leaves the others in order, and puts a new one last. */
  lemma {:induction false} AssignPrecedes(d: seq<Mount>, m: Mount, p: string, q: string)
    ensures Precedes(Assign(d, m), p, q) <==>
              Precedes(d, p, q) || (q == m.prefix && !Has(d, q) && Has(d, p))
  {
    if d == [] {
      assert Assign(d, m) == [m];
    } else {
      var rest := d[1..];
      assert d == [d[0]] + rest;
      PrecedesCons(d[0], rest, p, q);
      HasCons(d[0], rest, q);
      HasCons(d[0], rest, p);
      if d[0].prefix == m.prefix {
        PrecedesCons(m, rest, p, q);
      } else {
        AssignPrecedes(rest, m, p, q);
        PrecedesCons(d[0], Assign(rest, m), p, q);
        AssignHas(rest, m, q);
      }
    }
  }

  lemma {:induction false} AssignHas(d: seq<Mount>, m: Mount, p: string)
    ensures Has(Assign(d, m), p) <==> p == m.prefix || Has(d, p)
  {
    FindAssign(d, m, p);
    FindHas(d, p);
    FindHas(Assign(d, m), p);
  }

  /** Prefixes of one length stay in order when the dictionary is divided by length. */
  lemma {:induction false} ByLengthPrecedes(d: seq<Mount>, n: nat, p: string, q: string)
    requires |p| == |q|
    ensures Precedes(if |p| >= n then Long(d, n) else Short(d, n), p, q) <==> Precedes(d, p, q)
  {
    if d != [] {
      var rest := d[1..];
      assert d == [d[0]] + rest;
      PrecedesCons(d[0], rest, p, q);
      ByLengthPrecedes(rest, n, p, q);
      PrecedesCons(d[0], if |p| >= n then Long(rest, n) else Short(rest, n), p, q);
      FindByLength(rest, n, q);
      FindHas(rest, q);
      FindHas(if |p| >= n then Long(rest, n) else Short(rest, n), q);
    }
  }

  lemma {:induction false} MountedPrecedes(d: seq<Mount>, m: Mount, p: string, q: string)
    requires |p| == |q|
    ensures Precedes(Mounted(d, m), p, q) <==>
              Precedes(d, p, q) || (q == m.prefix && !Has(d, q) && Has(d, p))
  {
    var x, n := Assign(d, m), |m.prefix|;
    AssignPrecedes(d, m, p, q);
    ByLengthPrecedes(x, n, p, q);
    OnlyPart(Long(x, n), Short(x, n), n, p, q) by {
      forall i | 0 <= i < |Short(x, n)| ensures |Short(x, n)[i].prefix| < n { ShortIsShort(x, n, i); }
      forall i | 0 <= i < |Long(x, n)| ensures |Long(x, n)[i].prefix| >= n { LongIsLong(x, n, i); }
    }
  }

  lemma OnlyPart(long: seq<Mount>, short: seq<Mount>, n: nat, p: string, q: string)
    requires |p| == |q|
    requires forall i :: 0 <= i < |long| ==> |long[i].prefix| >= n
    requires forall i :: 0 <= i < |short| ==> |short[i].prefix| < n
    ensures Precedes(long + short, p, q) <==> Precedes(if |p| >= n then long else short, p, q)
  {
    var all := long + short;
    if Precedes(all, p, q) {
      var i, j :| 0 <= i < j < |all| && all[i].prefix == p && all[j].prefix == q;
      if |p| >= n {
        assert j < |long| && long[i] == all[i] && long[j] == all[j];
      } else {
        assert i >= |long| && short[i - |long|] == all[i] && short[j - |long|] == all[j];
      }
    }
    if |p| >= n && Precedes(long, p, q) {
      var i, j :| 0 <= i < j < |long| && long[i].prefix == p && long[j].prefix == q;
      PrecedesAt(all, i, j);
    }
    if |p| < n && Precedes(short, p, q) {
      var i, j :| 0 <= i < j < |short| && short[i].prefix == p && short[j].prefix == q;
      PrecedesAt(all, i + |long|, j + |long|);
    }
  }

  lemma PrecedesAt(d: seq<Mount>, i: nat, j: nat)
    requires i < j < |d|
    ensures Precedes(d, d[i].prefix, d[j].prefix)
  {
  }

  /** The number of the mount that first named this prefix, or the number of all mounts. */
  function FirstMount(mounts: seq<Mount>, p: string): (i: nat)
    ensures i <= |mounts| && (i < |mounts| ==> mounts[i].prefix == p)
    ensures forall k :: 0 <= k < i ==> mounts[k].prefix != p
  {
    if mounts == [] || mounts[0].prefix == p then 0 else 1 + FirstMount(mounts[1..], p)
  }

  lemma FirstMountExtended(mounts: seq<Mount>, p: string)
    requires mounts != []
    ensures var n := |mounts| - 1;
            FirstMount(mounts, p) ==
            if FirstMount(mounts[..n], p) < n then FirstMount(mounts[..n], p)
            else if mounts[n].prefix == p then n else n + 1
  {
    hide FirstMount;
    var n := |mounts| - 1;
    assert forall k :: 0 <= k < n ==> mounts[..n][k] == mounts[k];
    var first := FirstMount(mounts[..n], p);
    FirstMountIs(mounts, p, if first < n then first else if mounts[n].prefix == p then n else n + 1);
  }

  lemma FirstMountIs(mounts: seq<Mount>, p: string, i: nat)
    requires i <= |mounts| && (i < |mounts| ==> mounts[i].prefix == p)
    requires forall k :: 0 <= k < i ==> mounts[k].prefix != p
    ensures FirstMount(mounts, p) == i
  {
    hide FirstMount;
  }

  lemma {:induction false} MountedHas(mounts: seq<Mount>, p: string)
    ensures Has(MountAll(mounts), p) <==> FirstMount(mounts, p) < |mounts|
  {
    if mounts != [] {
      var n := |mounts| - 1;
      MountedHas(mounts[..n], p);
      FirstMountExtended(mounts, p);
      FindMounted(MountAll(mounts[..n]), mounts[n], p);
      FindHas(MountAll(mounts[..n]), p);
      FindHas(MountAll(mounts), p);
    }
  }

  /** Prefixes of the same length are in the order in which they were first mounted, whatever was mounted again. */
  lemma {:induction false} TiesByFirstMount(mounts: seq<Mount>, p: string, q: string)
    requires |p| == |q| && p != q
    ensures Precedes(MountAll(mounts), p, q) <==> FirstMount(mounts, p) < FirstMount(mounts, q) < |mounts|
  {
    if mounts != [] {
      var n := |mounts| - 1;
      var before := MountAll(mounts[..n]);
      TiesByFirstMount(mounts[..n], p, q);
      MountedPrecedes(before, mounts[n], p, q);
      MountedHas(mounts[..n], p);
      MountedHas(mounts[..n], q);
      FirstMountExtended(mounts, p);
      FirstMountExtended(mounts, q);
    }
  }

  /**
    Longest-prefix routing: after any sequence of mounts and re-mounts, `get_adapter` fails exactly when
    no mounted prefix matches the URL without regard to case, and otherwise returns the adapter last mounted
    on the longest matching prefix, of several that differ in case only on the one that was mounted first.
  */
  lemma LongestPrefixRouting(mounts: seq<Mount>, url: string) returns (p: string)
    ensures FirstMatch(MountAll(mounts), url).None? <==> forall q :: LastMounted(mounts, q).Some? ==> !Matches(url, q)
    ensures FirstMatch(MountAll(mounts), url).Some? ==>
              && Matches(url, p) && FirstMatch(MountAll(mounts), url) == LastMounted(mounts, p)
              && forall q :: LastMounted(mounts, q).Some? && Matches(url, q) && q != p ==>
                   |q| < |p| || (|q| == |p| && FirstMount(mounts, p) < FirstMount(mounts, q))
  {
    hide Matches, MountAll, FirstMount, Precedes;
    MountAllSorted(mounts);
    forall q ensures Find(MountAll(mounts), q) == LastMounted(mounts, q) { MountAllContents(mounts, q); }
    p := FirstIsLongest(MountAll(mounts), url);
    forall q | FirstMatch(MountAll(mounts), url).Some? && LastMounted(mounts, q).Some? && Matches(url, q)
               && q != p && |q| == |p|
      ensures FirstMount(mounts, p) < FirstMount(mounts, q)
    {
      TiesByFirstMount(mounts, p, q);
    }
  }
}
