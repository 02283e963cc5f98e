/**
  Following redirects: how many requests a session sends, the history every response ends up with,
  and when the Authorization header survives a whole chain.
*/
module Redirects {
  import opened Prelude

  /** What `urlparse` says about a URL; `port` is the explicit one. */
  datatype Url = Url(scheme: string, host: string, port: Option<nat>)

  // ----- Authorization -----

  function DefaultPort(scheme: string): Option<nat> {
    if scheme == "http" then Some(80) else if scheme == "https" then Some(443) else None
  }

  /** `should_strip_auth`, branch by branch. */
  predicate ShouldStrip(before: Url, after: Url) {
    if before.host != after.host then true
    else if before.scheme == "http" && (before.port == Some(80) || before.port == None)
            && after.scheme == "https" && (after.port == Some(443) || after.port == None) then false
    else
      var changedPort := before.port != after.port;
      var changedScheme := before.scheme != after.scheme;
      var standard := DefaultPort(before.scheme);
      if !changedScheme && (before.port == standard || before.port == None)
         && (after.port == standard || after.port == None)
      then false
      else changedPort || changedScheme
  }

  datatype Origin = Origin(scheme: string, host: string, port: Option<nat>)

  /** The origin of a URL, with the port that is really used. */
  function OriginOf(url: Url): Origin {
    Origin(url.scheme, url.host, if url.port.Some? then url.port else DefaultPort(url.scheme))
  }

  /** The one change of origin that keeps the header: http on port 80 to https on port 443, same host. */
  predicate IsUpgrade(a: Origin, b: Origin) {
    a.host == b.host && a.scheme == "http" && a.port == Some(80) && b.scheme == "https" && b.port == Some(443)
  }

  /** One hop keeps the header exactly when it keeps the origin or upgrades it. */
  lemma HopKeeps(a: Url, b: Url)
    ensures !ShouldStrip(a, b) <==> OriginOf(a) == OriginOf(b) || IsUpgrade(OriginOf(a), OriginOf(b))
  {
  }

  /** The header is still there after the requests `urls`, made one after the other. */
  predicate Survives(urls: seq<Url>) {
    forall i :: 0 <= i < |urls| - 1 ==> !ShouldStrip(urls[i], urls[i + 1])
  }

  /** All of `urls` share one origin up to index k and from there on another one, reached by an upgrade. */
  predicate StaysHome(urls: seq<Url>, k: nat)
    requires 0 < k <= |urls|
  {
    && (forall i :: 0 <= i < k ==> OriginOf(urls[i]) == OriginOf(urls[0]))
    && (forall i :: k <= i < |urls| ==> OriginOf(urls[i]) == OriginOf(urls[k]))
    && (k < |urls| ==> IsUpgrade(OriginOf(urls[0]), OriginOf(urls[k])))
  }

  /**
    Over a whole chain the header survives if and only if every request stays on the first origin,
    except for at most one upgrade from http on port 80 to https on port 443, after which it stays there.
  */
  lemma ChainKeeps(urls: seq<Url>)
    requires urls != []
    ensures Survives(urls) <==> exists k :: 0 < k <= |urls| && StaysHome(urls, k)
  {
    if Survives(urls) {
      var k := SurvivorStaysHome(urls);
    }
    if exists k :: 0 < k <= |urls| && StaysHome(urls, k) {
      var k :| 0 < k <= |urls| && StaysHome(urls, k);
      forall i | 0 <= i < |urls| - 1 ensures !ShouldStrip(urls[i], urls[i + 1]) {
        HopKeeps(urls[i], urls[i + 1]);
      }
    }
  }

  lemma {:induction false} SurvivorStaysHome(urls: seq<Url>) returns (k: nat)
    requires urls != [] && Survives(urls)
    ensures 0 < k <= |urls| && StaysHome(urls, k)
  {
    hide ShouldStrip;
    if |urls| == 1 {
      k := 1;
    } else {
      var n := |urls| - 1;
      var before := urls[..n];
      assert forall i :: 0 <= i < n ==> before[i] == urls[i];
      k := SurvivorStaysHome(before);
      HopKeeps(urls[n - 1], urls[n]);
      if k == n && OriginOf(urls[n]) == OriginOf(urls[n - 1]) { k := n + 1; }
    }
  }

  // ----- the redirect engine -----

  class Response {
    var history: seq<Response>
    const url: Url             // of the request it answers
    const authorized: bool     // whether that request carried an Authorization header
    const location: Option<Url>  // the redirect target, already resolved

    constructor (url: Url, authorized: bool, location: Option<Url>)
      ensures history == [] && this.url == url && this.authorized == authorized && this.location == location
    {
      history := [];
      this.url, this.authorized, this.location := url, authorized, location;
    }
  }

  /** The server: what the n-th request of the run is answered with. */
  type Server = nat -> Option<Url>

  /** The URL of the n-th request, as long as all earlier answers redirect. */
  ghost function UrlAt(url: Url, server: Server, n: nat): Url {
    if n == 0 || server(n - 1).None? then url else server(n - 1).value
  }

  ghost function UrlsTo(url: Url, server: Server, n: nat): seq<Url> {
    seq(n + 1, i requires 0 <= i => UrlAt(url, server, i))
  }

  /** One more hop: the header must survive that hop too. */
  lemma SurvivesNext(url: Url, server: Server, n: nat)
    ensures Survives(UrlsTo(url, server, n + 1)) <==>
              Survives(UrlsTo(url, server, n)) && !ShouldStrip(UrlAt(url, server, n), UrlAt(url, server, n + 1))
  {
    hide ShouldStrip, UrlAt;
    var shorter, longer := UrlsTo(url, server, n), UrlsTo(url, server, n + 1);
    assert forall i :: 0 <= i <= n ==> longer[i] == shorter[i];
    if Survives(longer) { assert !ShouldStrip(longer[n], longer[n + 1]); }
  }

  lemma SurvivesAlone(url: Url, server: Server)
    ensures Survives(UrlsTo(url, server, 0))
  {
  }

  /** The n-th response is the one the run prescribes. */
  ghost predicate Answers(r: Response, url: Url, authorized: bool, server: Server, n: nat) {
    && r.url == UrlAt(url, server, n) && r.location == server(n)
    && (r.authorized <==> authorized && Survives(UrlsTo(url, server, n)))
  }

  /** The first n responses each hold exactly the responses before them. */
  ghost predicate Chained(rs: seq<Response>, n: nat)
    requires n <= |rs|
    reads rs
  {
    forall i :: 0 <= i < n ==> rs[i].history == rs[..i]
  }

  /** `send` with `allow_redirects=False`: one request, and a first look at where it redirects to. */
  method SendOnce(url: Url, authorized: bool, location: Option<Url>, maxRedirects: int)
    returns (r: Result<Response, Response>)
    ensures var resp := if r.Ok? then r.value else r.error;
            fresh(resp) && resp.history == [] && resp.url == url && resp.location == location
            && (resp.authorized <==> authorized)
    ensures r.Err? <==> location.Some? && maxRedirects <= 0
  {
    var resp := new Response(url, authorized, location);
    if resp.location.Some? {
      resp.history := [];
      if |resp.history| >= maxRedirects { return Err(resp); }
    }
    r := Ok(resp);
  }

  /** The body of the redirect loop after the limit check: rebuild the request and send it. */
  method Follow(resp: Response, url: Url, authorized: bool, server: Server, n: nat, maxRedirects: int)
    returns (next: Response)
    requires Answers(resp, url, authorized, server, n) && resp.location.Some? && maxRedirects > 0
    ensures fresh(next) && next.history == [] && Answers(next, url, authorized, server, n + 1)
  {
    var target := resp.location.value;
    var keeps := resp.authorized && !ShouldStrip(resp.url, target);
    var sent := SendOnce(target, keeps, server(n + 1), maxRedirects);
    assert sent.Ok?;
    next := sent.value;
    SurvivesNext(url, server, n);
  }

  /** The assignment in the loop: the last response gets the ones before it, which keep theirs. */
  method WriteHistory(resp: Response, hist: seq<Response>, ghost rs: seq<Response>)
    requires rs == hist + [resp] && resp !in hist && Chained(rs, |hist|)
    modifies resp
    ensures Chained(rs, |rs|) && resp.history == hist
  {
    resp.history := hist;
    assert rs[..|hist|] == hist;
    forall i | 0 <= i < |hist| ensures rs[i] != resp && rs[i].history == rs[..i] { assert rs[i] in hist; }
  }

  lemma NothingChained(rs: seq<Response>)
    ensures Chained(rs, 0)
  {
  }

  lemma LessChained(rs: seq<Response>, n: nat)
    requires 0 < n <= |rs| && Chained(rs, n)
    ensures Chained(rs, n - 1)
  {
  }

  lemma MoreResponses(rs: seq<Response>, next: Response)
    requires Chained(rs, |rs|)
    ensures Chained(rs + [next], |rs|)
  {
    assert forall i :: 0 <= i < |rs| ==> (rs + [next])[..i] == rs[..i];
  }

  /**
    `resolve_redirects` from a first response: the first response and all it yields, or TooManyRedirects
    raised at the last of them.
  */
  method ResolveRedirects(first: Response, url: Url, authorized: bool, server: Server, maxRedirects: int)
    returns (rs: seq<Response>, failed: bool)
    requires Answers(first, url, authorized, server, 0) && first.history == []
    modifies first
    ensures rs != [] && rs[0] == first && forall i :: 0 < i < |rs| ==> fresh(rs[i])
    ensures forall i :: 0 <= i < |rs| ==> Answers(rs[i], url, authorized, server, i)
    ensures Chained(rs, |rs| - 1) && forall i :: 0 <= i < |rs| - 1 ==> rs[i] != rs[|rs| - 1]
    ensures rs[|rs| - 1].history == if failed then rs[..|rs| - 1] else []
    ensures forall i :: 0 <= i < |rs| - 1 ==> server(i).Some?
    ensures |rs| - 1 <= Limit(maxRedirects)
    ensures if failed then server(|rs| - 1).Some? && |rs| - 1 == Limit(maxRedirects) else server(|rs| - 1).None?
  {
    hide Answers, Chained;
    var resp := first;
    rs := [first];
    NothingChained(rs);
    var hist: seq<Response> := [];
    while true
      invariant rs != [] && rs[0] == first && resp == rs[|rs| - 1] && hist == rs[..|rs| - 1]
      invariant |hist| <= Limit(maxRedirects)
      invariant forall i :: 0 < i < |rs| ==> fresh(rs[i])
      invariant Chained(rs, |hist|) && forall i :: 0 <= i < |hist| ==> rs[i] != resp
      invariant forall i :: 0 <= i < |rs| ==> Answers(rs[i], url, authorized, server, i)
      invariant forall i :: 0 <= i < |hist| ==> server(i).Some?
      invariant resp.history == []
      decreases Limit(maxRedirects) - |hist|
    {
      LocationOf(resp, url, authorized, server, |hist|);
      if resp.location.None? { return rs, false; }
      WriteHistory(resp, hist, rs);
      hist := hist + [resp];
      if |resp.history| >= maxRedirects {
        LessChained(rs, |hist|);
        return rs, true;
      }
      resp := Follow(resp, url, authorized, server, |hist| - 1, maxRedirects);
      MoreResponses(rs, resp);
      rs := rs + [resp];
    }
  }

  /** How many follow-up requests are allowed. */
  function Limit(maxRedirects: int): nat { if maxRedirects > 0 then maxRedirects else 0 }

  lemma LocationOf(r: Response, url: Url, authorized: bool, server: Server, n: nat)
    requires Answers(r, url, authorized, server, n)
    ensures r.location == server(n)
  {
  }

  lemma FirstAnswers(r: Response, url: Url, authorized: bool, server: Server)
    requires r.url == url && r.authorized == authorized && r.location == server(0)
    ensures Answers(r, url, authorized, server, 0)
  {
    SurvivesAlone(url, server);
  }

  /** What the prescribed answers come to from one request to the next. */
  lemma HopByHop(rs: seq<Response>, url: Url, authorized: bool, server: Server)
    requires rs != [] && forall i :: 0 <= i < |rs| ==> Answers(rs[i], url, authorized, server, i)
    requires forall i :: 0 <= i < |rs| - 1 ==> server(i).Some?
    ensures rs[0].url == url && (rs[0].authorized <==> authorized)
    ensures forall i :: 0 <= i < |rs| ==> rs[i].location == server(i)
    ensures forall i :: 0 <= i < |rs| - 1 ==>
              && rs[i + 1].url == server(i).value
              && (rs[i + 1].authorized <==> rs[i].authorized && !ShouldStrip(rs[i].url, rs[i + 1].url))
  {
    SurvivesAlone(url, server);
    forall i | 0 <= i < |rs| - 1
      ensures rs[i + 1].url == server(i).value
      ensures rs[i + 1].authorized <==> rs[i].authorized && !ShouldStrip(rs[i].url, rs[i + 1].url)
    {
      assert Answers(rs[i], url, authorized, server, i) && Answers(rs[i + 1], url, authorized, server, i + 1);
      SurvivesNext(url, server, i);
    }
  }

  /**
    `send` with redirects allowed, for any server. At most `maxRedirects` follow-up requests are sent;
    TooManyRedirects is raised exactly when that many were sent and the last answer redirects again. Every
    response ends up with exactly the responses before it as its history, and carries the
    Authorization header exactly when the header survived the chain up to it.
  */
  method Send(url: Url, authorized: bool, server: Server, maxRedirects: int) returns (rs: seq<Response>, failed: bool)
    ensures rs != [] && |rs| - 1 <= Limit(maxRedirects)
    ensures forall i :: 0 <= i < |rs| ==> fresh(rs[i]) && Answers(rs[i], url, authorized, server, i)
    ensures rs[0].url == url && (rs[0].authorized <==> authorized)
    ensures forall i :: 0 <= i < |rs| ==> rs[i].location == server(i)
    ensures forall i :: 0 <= i < |rs| - 1 ==>
              && server(i).Some? && rs[i + 1].url == server(i).value
              && (rs[i + 1].authorized <==> rs[i].authorized && !ShouldStrip(rs[i].url, rs[i + 1].url))
    ensures Chained(rs, |rs|)
    ensures forall i :: 0 <= i < |rs| - 1 ==> server(i).Some?
    ensures if failed then server(|rs| - 1).Some? && |rs| - 1 == Limit(maxRedirects) else server(|rs| - 1).None?
  {
    hide Answers, ShouldStrip;
    var first := new Response(url, authorized, server(0));
    FirstAnswers(first, url, authorized, server);
    rs, failed := ResolveRedirects(first, url, authorized, server, maxRedirects);
    HopByHop(rs, url, authorized, server);
    if failed { return; }
    var r := rs[|rs| - 1];
    var history := rs[..|rs| - 1];
    if history != [] { r.history := history; }
  }
}
