/**
  Digest authentication: the header `HTTPDigestAuth.build_digest_header` computes in one go, and the
  native computation in two phases with the state written back around them.

  `Reference` says what one call means, in the terms of section 3.4 of RFC 7616. Hashes, encodings, the strict
  URL parser and the clock and random bytes are parameters; a missing clock or random value stands for a
  callback that raises.
*/
module Digest {
  import opened Prelude
  import opened DigestTarget

  datatype Hash = Md5 | Sha1 | Sha256 | Sha512

  /** The library functions both sides call. */
  datatype Library = Library(
    hex: (Hash, Bytes) -> string,
    utf8: string -> Bytes,
    upper: string -> string,
    parse: UrlParser)

  ghost predicate Usable(lib: Library) { lib.upper("MD5") == "MD5" && Strict(lib.parse) }

  /** What was parsed from the server's header; realm and nonce may be missing. */
  datatype Challenge = Challenge(
    realm: Option<string>, nonce: Option<string>, qop: Option<string>, algorithm: Option<string>,
    opaqueValue: Option<string>)

  datatype Call = Call(
    username: string, password: string, verb: string, url: string, challenge: Challenge,
    ctime: Option<Bytes>, random: Option<Bytes>)

  datatype State = State(lastNonce: string, nonceCount: nat)

  const INITIAL := State("", 0)

  datatype Outcome = Header(text: string) | NoHeader | KeyError | CallbackError

  // ----- numerals -----

  function Numeral(n: nat, base: nat): (r: string)
    requires 2 <= base <= 16
    ensures r != ""
  {
    if n < base then [HexDigit(n, 'a')] else Numeral(n / base, base) + [HexDigit(n % base, 'a')]
  }

  function Zeros(n: nat): (r: string)
    ensures |r| == n && forall i :: 0 <= i < n ==> r[i] == '0'
  {
    seq(n, _ => '0')
  }

  /** `{:08x}`. */
  function Hex8(n: nat): string {
    var r := Numeral(n, 16);
    if |r| < 8 then Zeros(8 - |r|) + r else r
  }

  // ----- the meaning of one call -----

  /** The hash and whether it is the session variant. */
  function Selected(lib: Library, algorithm: Option<string>): Option<(Hash, bool)> {
    var name := if algorithm.None? then "MD5" else lib.upper(algorithm.value);
    if name == "MD5" then Some((Md5, false))
    else if name == "MD5-SESS" then Some((Md5, true))
    else if name == "SHA" then Some((Sha1, false))
    else if name == "SHA-256" then Some((Sha256, false))
    else if name == "SHA-512" then Some((Sha512, false))
    else None
  }

  datatype Quality = Plain | Auth | Unsupported

  function QualityOf(qop: Option<string>): Quality {
    if qop.None? || qop.value == "" then Plain
    else if "auth" in Split(qop.value, ',') then Auth
    else Unsupported
  }

  function Colon(a: string, b: string): string { a + ":" + b }

  function H(lib: Library, hash: Hash, text: string): string { lib.hex(hash, lib.utf8(text)) }

  function KD(lib: Library, hash: Hash, secret: string, data: string): string { H(lib, hash, Colon(secret, data)) }

  function Cut16(s: string): string { if |s| < 16 then s else s[..16] }

  function Cnonce(lib: Library, count: nat, nonce: string, ctime: Bytes, random: Bytes): string {
    Cut16(lib.hex(Sha1, lib.utf8(Numeral(count, 10)) + lib.utf8(nonce) + ctime + random))
  }

  /** H(A1) of section 3.4.2. */
  function SecretOf(lib: Library, hash: Hash, session: bool, call: Call, cnonce: string): string
    requires call.challenge.realm.Some? && call.challenge.nonce.Some?
  {
    var plain := H(lib, hash, Colon(Colon(call.username, call.challenge.realm.value), call.password));
    if session then H(lib, hash, Colon(Colon(plain, call.challenge.nonce.value), cnonce)) else plain
  }

  /** The response of section 3.4.1. */
  function ResponseOf(lib: Library, hash: Hash, session: bool, call: Call, target: string, count: nat,
    cnonce: string): string
    requires call.challenge.realm.Some? && call.challenge.nonce.Some?
  {
    var nonce := call.challenge.nonce.value;
    var secret := SecretOf(lib, hash, session, call, cnonce);
    var ha2 := H(lib, hash, Colon(call.verb, target));
    if QualityOf(call.challenge.qop) == Plain then KD(lib, hash, secret, Colon(nonce, ha2))
    else KD(lib, hash, secret, Colon(Colon(Colon(Colon(nonce, Hex8(count)), cnonce), "auth"), ha2))
  }

  function Field(name: string, value: string): string { name + "=\"" + value + "\"" }

  /** An optional field is left out when it is missing or empty. */
  function OptionalField(name: string, value: Option<string>): string {
    if value.None? || value.value == "" then "" else ", " + Field(name, value.value)
  }

  function HeaderText(lib: Library, hash: Hash, session: bool, call: Call, target: string, count: nat): string
    requires call.challenge.realm.Some? && call.challenge.nonce.Some? && call.ctime.Some? && call.random.Some?
  {
    var c := call.challenge;
    var cnonce := Cnonce(lib, count, c.nonce.value, call.ctime.value, call.random.value);
    var response := ResponseOf(lib, hash, session, call, target, count, cnonce);
    "Digest "
    + (Field("username", call.username) + ", " + Field("realm", c.realm.value) + ", " + Field("nonce", c.nonce.value)
       + ", " + Field("uri", target) + ", " + Field("response", response)
       + OptionalField("opaque", c.opaqueValue) + OptionalField("algorithm", c.algorithm)
       + if QualityOf(c.qop) == Plain then "" else ", qop=\"auth\", nc=" + Hex8(count) + ", " + Field("cnonce", cnonce))
  }

  function NextCount(s: State, nonce: string): nat {
    if nonce == s.lastNonce then s.nonceCount + 1 else 1
  }

  /** What one call answers and leaves behind, for the target `target` of its URL. */
  function Reference(lib: Library, call: Call, s: State, target: string): (Outcome, State) {
    var c := call.challenge;
    if c.realm.None? || c.nonce.None? then (KeyError, s)
    else
      var selected := Selected(lib, c.algorithm);
      if selected.None? then (NoHeader, s)
      else
        var count := NextCount(s, c.nonce.value);
        if call.ctime.None? || call.random.None? then (CallbackError, s.(nonceCount := count))
        else if QualityOf(c.qop) == Unsupported then (NoHeader, s.(nonceCount := count))
        else (Header(HeaderText(lib, selected.value.0, selected.value.1, call, target, count)),
          State(c.nonce.value, count))
  }

  // ----- the native plan -----

  const U32: nat := 0x1_0000_0000

  datatype Algorithm = AlgMd5 | AlgMd5Sess | AlgSha1 | AlgSha256 | AlgSha512

  function NativeAlgorithm(lib: Library, algorithm: Option<string>): Option<Algorithm> {
    var name := lib.upper(if algorithm.Some? then algorithm.value else "MD5");
    if name == "MD5" then Some(AlgMd5)
    else if name == "MD5-SESS" then Some(AlgMd5Sess)
    else if name == "SHA" then Some(AlgSha1)
    else if name == "SHA-256" then Some(AlgSha256)
    else if name == "SHA-512" then Some(AlgSha512)
    else None
  }

  function HashOf(algorithm: Algorithm): Hash {
    match algorithm
    case AlgMd5 => Md5
    case AlgMd5Sess => Md5
    case AlgSha1 => Sha1
    case AlgSha256 => Sha256
    case AlgSha512 => Sha512
  }

  /** A request whose realm and nonce are present. */
  datatype Request = Request(
    username: string, password: string, verb: string, url: string,
    realm: string, nonce: string, qop: Option<string>, algorithm: Option<string>, opaqueValue: Option<string>)

  datatype Plan = Plan(request: Request, algorithm: Algorithm, path: string, state: State)

  datatype Preparation = NotReady(state: State) | Ready(plan: Plan)

  /** `prepare_digest`; the 32-bit count wraps around in a build without overflow checks. */
  function PrepareDigest(lib: Library, request: Request, s: State): Preparation {
    var algorithm := NativeAlgorithm(lib, request.algorithm);
    var path := NativeTarget(lib.parse, request.url);
    if algorithm.None? || path.None? then NotReady(s)
    else
      var count := if request.nonce == s.lastNonce then (s.nonceCount + 1) % U32 else 1;
      Ready(Plan(request, algorithm.value, path.value, s.(nonceCount := count)))
  }

  function NotEmpty(value: Option<string>): bool { value.Some? && value.value != "" }

  function NativeResponse(lib: Library, plan: Plan, ha1: string, ha2: string, cnonce: string): Option<string> {
    var hash, nonce, qop := HashOf(plan.algorithm), plan.request.nonce, plan.request.qop;
    if !NotEmpty(qop) then Some(H(lib, hash, Colon(Colon(ha1, nonce), ha2)))
    else if qop.value == "auth" || "auth" in Split(qop.value, ',') then
      var noncebit := Colon(Colon(Colon(Colon(nonce, Hex8(plan.state.nonceCount)), cnonce), "auth"), ha2);
      Some(H(lib, hash, Colon(ha1, noncebit)))
    else None
  }

  /** `DigestPlan::finish`. */
  function Finish(lib: Library, plan: Plan, ctime: Bytes, random: Bytes): (Option<string>, State) {
    var q, hash, count := plan.request, HashOf(plan.algorithm), plan.state.nonceCount;
    var ha2 := H(lib, hash, Colon(q.verb, plan.path));
    var cnonce := Cnonce(lib, count, q.nonce, ctime, random);
    var first := H(lib, hash, Colon(Colon(q.username, q.realm), q.password));
    var ha1 := if plan.algorithm == AlgMd5Sess then H(lib, hash, Colon(Colon(first, q.nonce), cnonce)) else first;
    var response := NativeResponse(lib, plan, ha1, ha2, cnonce);
    if response.None? then (None, plan.state)
    else
      var base := Field("username", q.username) + ", " + Field("realm", q.realm) + ", " + Field("nonce", q.nonce)
                  + ", " + Field("uri", plan.path) + ", " + Field("response", response.value);
      var withOpaque := if NotEmpty(q.opaqueValue) then base + (", " + Field("opaque", q.opaqueValue.value)) else base;
      var withAlgorithm := if NotEmpty(q.algorithm) then withOpaque + (", " + Field("algorithm", q.algorithm.value))
                           else withOpaque;
      var fields := if NotEmpty(q.qop)
                    then withAlgorithm + (", qop=\"auth\", nc=" + Hex8(count) + ", " + Field("cnonce", cnonce))
                    else withAlgorithm;
      (Some("Digest " + fields), plan.state.(lastNonce := q.nonce))
  }

  function RequestOf(call: Call): Request
    requires call.challenge.realm.Some? && call.challenge.nonce.Some?
  {
    var c := call.challenge;
    Request(call.username, call.password, call.verb, call.url, c.realm.value, c.nonce.value, c.qop, c.algorithm,
      c.opaqueValue)
  }

  // ----- the per-thread state -----

  class ThreadLocal {
    var lastNonce: string
    var nonceCount: nat

    ghost function Value(): State
      reads this
    {
      State(lastNonce, nonceCount)
    }

    constructor ()
      ensures Value() == INITIAL
    {
      lastNonce, nonceCount := "", 0;
    }

    /** `build_digest_header` of the Python class. */
    method BuildDigestHeader(lib: Library, call: Call) returns (r: Outcome)
      modifies this
      ensures (r, Value()) == Reference(lib, call, old(Value()), PythonTarget(call.url))
    {
      hide PythonTarget, Numeral, Split, H, Hex8, Field, OptionalField, Colon, Cut16;
      var c := call.challenge;
      if c.realm.None? || c.nonce.None? { return KeyError; }
      var nonce := c.nonce.value;
      var name := if c.algorithm.None? then "MD5" else lib.upper(c.algorithm.value);
      var hash: Option<Hash> := None;
      if name == "MD5" || name == "MD5-SESS" {
        hash := Some(Md5);
      } else if name == "SHA" {
        hash := Some(Sha1);
      } else if name == "SHA-256" {
        hash := Some(Sha256);
      } else if name == "SHA-512" {
        hash := Some(Sha512);
      }
      if hash.None? { return NoHeader; }
      var path := PythonTarget(call.url);
      var ha1 := H(lib, hash.value, Colon(Colon(call.username, c.realm.value), call.password));
      var ha2 := H(lib, hash.value, Colon(call.verb, path));
      if nonce == lastNonce { nonceCount := nonceCount + 1; } else { nonceCount := 1; }
      var ncvalue := Hex8(nonceCount);
      if call.ctime.None? || call.random.None? { return CallbackError; }
      var seed := lib.utf8(Numeral(nonceCount, 10)) + lib.utf8(nonce) + call.ctime.value + call.random.value;
      var cnonce := Cut16(lib.hex(Sha1, seed));
      if name == "MD5-SESS" { ha1 := H(lib, hash.value, Colon(Colon(ha1, nonce), cnonce)); }
      var response;
      AuthAlone();
      if c.qop.None? || c.qop.value == "" {
        response := KD(lib, hash.value, ha1, Colon(nonce, ha2));
      } else if c.qop.value == "auth" || "auth" in Split(c.qop.value, ',') {
        response := KD(lib, hash.value, ha1, Colon(Colon(Colon(Colon(nonce, ncvalue), cnonce), "auth"), ha2));
      } else {
        return NoHeader;
      }
      lastNonce := nonce;
      var fields := Field("username", call.username) + ", " + Field("realm", c.realm.value) + ", "
        + Field("nonce", nonce)
                    + ", " + Field("uri", path) + ", " + Field("response", response);
      fields := fields + OptionalField("opaque", c.opaqueValue);
      fields := fields + OptionalField("algorithm", c.algorithm);
      fields := fields + if c.qop.None? || c.qop.value == "" then ""
                         else ", qop=\"auth\", nc=" + ncvalue + ", " + Field("cnonce", cnonce);
      r := Header("Digest " + fields);
    }

    /** `_digest_auth_trial`: the count is written before the callbacks run, the nonce only with a header. */
    method DigestTrial(lib: Library, call: Call) returns (r: Outcome)
      modifies this
      ensures (r, Value()) == Trial(lib, call, old(Value()))
    {
      hide PythonTarget, NativeTarget, Finish, Reference;
      var c := call.challenge;
      if NativeTarget(lib.parse, call.url).None? {
        r := BuildDigestHeader(lib, call);
        return;
      }
      if c.realm.None? || c.nonce.None? { return KeyError; }
      if nonceCount >= U32 {
        r := BuildDigestHeader(lib, call);
        return;
      }
      var preparation := PrepareDigest(lib, RequestOf(call), State(lastNonce, nonceCount));
      if preparation.NotReady? { return NoHeader; }
      nonceCount := preparation.plan.state.nonceCount;
      if call.ctime.None? || call.random.None? { return CallbackError; }
      var (header, after) := Finish(lib, preparation.plan, call.ctime.value, call.random.value);
      if header.Some? { lastNonce := after.lastNonce; }
      r := if header.Some? then Header(header.value) else NoHeader;
    }
  }

  /** The native call as a whole, with its fallbacks to Python. */
  function Trial(lib: Library, call: Call, s: State): (Outcome, State) {
    var c := call.challenge;
    if NativeTarget(lib.parse, call.url).None? then Reference(lib, call, s, PythonTarget(call.url))
    else if c.realm.None? || c.nonce.None? then (KeyError, s)
    else if s.nonceCount >= U32 then Reference(lib, call, s, PythonTarget(call.url))
    else
      match PrepareDigest(lib, RequestOf(call), s)
      case NotReady(_) => (NoHeader, s)
      case Ready(plan) =>
        var counted := s.(nonceCount := plan.state.nonceCount);
        if call.ctime.None? || call.random.None? then (CallbackError, counted)
        else
          var (header, after) := Finish(lib, plan, call.ctime.value, call.random.value);
          if header.Some? then (Header(header.value), counted.(lastNonce := after.lastNonce)) else (NoHeader, counted)
  }

  // ----- refinement -----

  lemma {:induction false} SplitWhole(s: string, separator: char)
    requires separator !in s
    ensures Split(s, separator) == [s]
  {
    if s != "" {
      SplitWhole(s[1..], separator);
      assert [s[0]] + s[1..] == s;
    }
  }

  lemma AuthAlone()
    ensures "auth" in Split("auth", ',')
  {
    SplitWhole("auth", ',');
  }

  lemma SameAlgorithm(lib: Library, algorithm: Option<string>)
    requires lib.upper("MD5") == "MD5"
    ensures NativeAlgorithm(lib, algorithm).Some? <==> Selected(lib, algorithm).Some?
    ensures NativeAlgorithm(lib, algorithm).Some? ==>
              Selected(lib, algorithm).value ==
              (HashOf(NativeAlgorithm(lib, algorithm).value), NativeAlgorithm(lib, algorithm).value == AlgMd5Sess)
  {
  }

  lemma SameResponse(lib: Library, call: Call, plan: Plan, ha1: string, cnonce: string)
    requires call.challenge.realm.Some? && call.challenge.nonce.Some? && plan.request == RequestOf(call)
    requires ha1 == SecretOf(lib, HashOf(plan.algorithm), plan.algorithm == AlgMd5Sess, call, cnonce)
    ensures var hash := HashOf(plan.algorithm);
            var ha2 := H(lib, hash, Colon(call.verb, plan.path));
            NativeResponse(lib, plan, ha1, ha2, cnonce) ==
            if QualityOf(call.challenge.qop) == Unsupported then None
            else Some(ResponseOf(lib, hash, plan.algorithm == AlgMd5Sess, call, plan.path, plan.state.nonceCount,
              cnonce))
  {
    hide Hex8, Split, H;
    AuthAlone();
    var ha2 := H(lib, HashOf(plan.algorithm), Colon(call.verb, plan.path));
    assert Colon(Colon(ha1, plan.request.nonce), ha2) == Colon(ha1, Colon(plan.request.nonce, ha2));
    assert KD(lib, HashOf(plan.algorithm), ha1, Colon(plan.request.nonce, ha2))
        == H(lib, HashOf(plan.algorithm), Colon(ha1, Colon(plan.request.nonce, ha2)));
  }

  /** Finishing a plan gives the reference header for the plan's count and path, and only then adopts the nonce. */
  lemma FinishIsReference(lib: Library, call: Call, plan: Plan)
    requires call.challenge.realm.Some? && call.challenge.nonce.Some? && call.ctime.Some? && call.random.Some?
    requires plan.request == RequestOf(call)
    ensures Finish(lib, plan, call.ctime.value, call.random.value) ==
            if QualityOf(call.challenge.qop) == Unsupported then (None, plan.state)
            else (Some(HeaderText(lib, HashOf(plan.algorithm), plan.algorithm == AlgMd5Sess, call, plan.path,
              plan.state.nonceCount)),
                  plan.state.(lastNonce := call.challenge.nonce.value))
  {
    hide Hex8, Split, H, Cnonce, Colon, NativeResponse, ResponseOf, Field;
    var hash, session := HashOf(plan.algorithm), plan.algorithm == AlgMd5Sess;
    var cnonce := Cnonce(lib, plan.state.nonceCount, plan.request.nonce, call.ctime.value, call.random.value);
    var ha1 := SecretOf(lib, hash, session, call, cnonce);
    SameResponse(lib, call, plan, ha1, cnonce);
    var c := call.challenge;
    var base := Field("username", call.username) + ", " + Field("realm", c.realm.value) + ", "
      + Field("nonce", c.nonce.value)
                + ", " + Field("uri", plan.path) + ", "
                + Field("response", ResponseOf(lib, hash, session, call, plan.path, plan.state.nonceCount, cnonce));
    NoSuffix(base);
    NoSuffix(base + OptionalField("opaque", c.opaqueValue));
    NoSuffix(base + OptionalField("opaque", c.opaqueValue) + OptionalField("algorithm", c.algorithm));
  }

  lemma NoSuffix(s: string)
    ensures s + "" == s
  {
  }

  /**
    The one case in which the native code goes its own way: the target is accepted, the algorithm supported,
    the nonce repeated, and the count at the end of its 32 bits.
  */
  ghost predicate CountOverflows(lib: Library, call: Call, s: State) {
    && NativeTarget(lib.parse, call.url).Some?
    && call.challenge.realm.Some? && call.challenge.nonce == Some(s.lastNonce)
    && Selected(lib, call.challenge.algorithm).Some?
    && s.nonceCount == U32 - 1
  }

  /**
    Refinement: header, exceptions and state of the native call are those of the Python method, for every
    call and every state, if and only if the count does not overflow.
  */
  lemma TrialRefines(lib: Library, call: Call, s: State)
    requires Usable(lib)
    ensures Trial(lib, call, s) == Reference(lib, call, s, PythonTarget(call.url)) <==> !CountOverflows(lib, call, s)
  {
    hide PythonTarget, NativeTarget, Finish, HeaderText, Strict, NativeAlgorithm, Selected;
    SameAlgorithm(lib, call.challenge.algorithm);
    var c := call.challenge;
    if NativeTarget(lib.parse, call.url).Some? && c.realm.Some? && c.nonce.Some? && s.nonceCount < U32 {
      TargetsAgree(lib.parse, call.url);
      var preparation := PrepareDigest(lib, RequestOf(call), s);
      if preparation.Ready? {
        if call.ctime.Some? && call.random.Some? { FinishIsReference(lib, call, preparation.plan); }
      }
    }
  }

  // ----- nonce counts over whole runs -----

  ghost function StateAfter(lib: Library, calls: seq<Call>, n: nat): State
    requires n <= |calls|
  {
    if n == 0 then INITIAL
    else Reference(lib, calls[n - 1], StateAfter(lib, calls, n - 1), PythonTarget(calls[n - 1].url)).1
  }

  ghost function NativeStateAfter(lib: Library, calls: seq<Call>, n: nat): State
    requires n <= |calls|
  {
    if n == 0 then INITIAL else Trial(lib, calls[n - 1], NativeStateAfter(lib, calls, n - 1)).1
  }

  /** One native call below the end of the 32 bits. */
  lemma TrialBelow(lib: Library, call: Call, s: State)
    requires Usable(lib) && s.nonceCount < U32 - 1
    ensures Trial(lib, call, s) == Reference(lib, call, s, PythonTarget(call.url))
    ensures Trial(lib, call, s).1.nonceCount <= s.nonceCount + 1
  {
    hide Trial, Reference, PythonTarget, NativeTarget, Selected, Usable;
    TrialRefines(lib, call, s);
    CountGrowsByOne(lib, call, s, PythonTarget(call.url));
  }

  lemma CountGrowsByOne(lib: Library, call: Call, s: State, target: string)
    ensures Reference(lib, call, s, target).1.nonceCount <= s.nonceCount + 1
  {
    hide HeaderText, Selected, QualityOf;
  }

  /**
    Over whole runs: on a thread that starts afresh, the first 2^32-1 native calls answer exactly what the Python
    method would have answered, whatever the challenges, URLs and failing callbacks.
  */
  lemma {:induction false} NativeRunAgrees(lib: Library, calls: seq<Call>, n: nat)
    requires Usable(lib) && n < |calls| < U32
    ensures NativeStateAfter(lib, calls, n) == StateAfter(lib, calls, n) && StateAfter(lib, calls, n).nonceCount <= n
    ensures Trial(lib, calls[n], NativeStateAfter(lib, calls, n)) ==
            Reference(lib, calls[n], StateAfter(lib, calls, n), PythonTarget(calls[n].url))
  {
    hide Trial, Reference, PythonTarget, Usable;
    if n > 0 {
      NativeRunAgrees(lib, calls, n - 1);
      TrialBelow(lib, calls[n - 1], StateAfter(lib, calls, n - 1));
    }
    TrialBelow(lib, calls[n], StateAfter(lib, calls, n));
  }

  // ----- the 32-bit count at its end -----

  lemma AnswerCounts(lib: Library, call: Call, s: State, target: string)
    requires Yields(lib, call)
    ensures Reference(lib, call, s, target).1 ==
              State(call.challenge.nonce.value, NextCount(s, call.challenge.nonce.value))
  {
    hide HeaderText, Selected, QualityOf;
  }

  /** A thread that answers one nonce over and over. */
  lemma {:induction false} RepeatedAnswers(lib: Library, call: Call, calls: seq<Call>, n: nat)
    requires Usable(lib) && Yields(lib, call) && 0 < n < U32 && n <= |calls|
    requires forall i :: 0 <= i < |calls| ==> calls[i] == call
    ensures NativeStateAfter(lib, calls, n) == State(call.challenge.nonce.value, n)
  {
    hide PythonTarget, Usable, Yields, Trial, Reference;
    var s := NativeStateAfter(lib, calls, n - 1);
    if n == 1 { assert s == INITIAL; } else { RepeatedAnswers(lib, call, calls, n - 1); }
    TrialBelow(lib, call, s);
    AnswerCounts(lib, call, s, PythonTarget(call.url));
  }

  /** At the end of its 32 bits the native count wraps around, and a header is written with the count 0. */
  lemma OverflowCounts(lib: Library, call: Call, s: State)
    requires Usable(lib) && CountOverflows(lib, call, s)
    ensures var native, python := Trial(lib, call, s), Reference(lib, call, s, PythonTarget(call.url));
            && native.1.nonceCount == 0 && python.1.nonceCount == U32
            && (Yields(lib, call) ==>
                  var (hash, session) := Selected(lib, call.challenge.algorithm).value;
                  && native.0 == Header(HeaderText(lib, hash, session, call, PythonTarget(call.url), 0))
                  && python.0 == Header(HeaderText(lib, hash, session, call, PythonTarget(call.url), U32)))
  {
    hide PythonTarget, HeaderText, QualityOf, Finish, NativeTarget, NativeAlgorithm, Selected, Strict;
    SameAlgorithm(lib, call.challenge.algorithm);
    TargetsAgree(lib.parse, call.url);
    if Yields(lib, call) {
      FinishIsReference(lib, call, PrepareDigest(lib, RequestOf(call), s).plan);
    }
  }

  /**
    The bound of `NativeRunAgrees` cannot be raised: whatever the call that the native code answers, on a thread
    that makes it 2^32 times the last one is given the count 0, where the Python method counts 2^32.
  */
  lemma OverflowIsReachable(lib: Library, call: Call, calls: seq<Call>)
    requires Usable(lib) && Yields(lib, call) && NativeTarget(lib.parse, call.url).Some?
    requires |calls| == U32 && forall i :: 0 <= i < |calls| ==> calls[i] == call
    ensures var s := NativeStateAfter(lib, calls, U32 - 1);
            && CountOverflows(lib, call, s)
            && Trial(lib, call, s).1.nonceCount == 0
            && Reference(lib, call, s, PythonTarget(call.url)).1.nonceCount == U32
  {
    hide PythonTarget, Trial, Reference, QualityOf, NativeStateAfter, NativeTarget, Selected;
    RepeatedAnswers(lib, call, calls, U32 - 1);
    OverflowCounts(lib, call, NativeStateAfter(lib, calls, U32 - 1));
  }

  /** With a hash that says nothing, headers differ in their count only. */
  lemma HeaderLength(lib: Library, hash: Hash, session: bool, call: Call, target: string, count: nat)
    requires call.challenge.realm.Some? && call.challenge.nonce.Some? && call.ctime.Some? && call.random.Some?
    requires QualityOf(call.challenge.qop) == Auth && forall h, bytes :: lib.hex(h, bytes) == ""
    ensures |HeaderText(lib, hash, session, call, target, count)| ==
            |HeaderText(lib, hash, session, call, target, 0)| - |Hex8(0)| + |Hex8(count)|
  {
    hide Hex8, Field, OptionalField, QualityOf, Colon;
  }

  lemma NumeralLength(n: nat, digits: nat)
    requires Power16(digits) <= n < 16 * Power16(digits)
    ensures |Numeral(n, 16)| == digits + 1
  {
  }

  function Power16(digits: nat): nat { if digits == 0 then 1 else 16 * Power16(digits - 1) }

  const EXAMPLE_PARSER: UrlParser := url => if url == "http://h/" then Some(Parsed("http", true, "/", None)) else None

  const EXAMPLE: Library := Library((hash, bytes) => "", text => [], text => text, EXAMPLE_PARSER)

  /** Such calls exist: with a parser that knows one URL, the two headers differ in their length. */
  lemma OverflowCounterexample(call: Call, s: State)
    requires call.url == "http://h/" && call.ctime.Some? && call.random.Some? && s == State("n", U32 - 1)
    requires call.challenge == Challenge(Some("r"), Some("n"), Some("auth"), None, None)
    ensures Usable(EXAMPLE) && CountOverflows(EXAMPLE, call, s)
    ensures var native, python := Trial(EXAMPLE, call, s).0, Reference(EXAMPLE, call, s, PythonTarget(call.url)).0;
            native.Header? && python.Header? && |native.text| + 1 == |python.text|
  {
    hide PythonTarget, Numeral, Hex8, Split, NativeTarget, HeaderText, Trial, Reference;
    assert "http://" + "h" + "/" == "http://h/";
    PlainAccepted(EXAMPLE.parse, "h", "/");
    AuthAlone();
    OverflowCounts(EXAMPLE, call, s);
    HeaderLength(EXAMPLE, Md5, false, call, PythonTarget(call.url), U32);
    HexLengths();
  }

  lemma HexLengths()
    ensures |Hex8(0)| == 8 && |Hex8(U32)| == 9
  {
    assert Power16(8) == U32;
    NumeralLength(U32, 8);
  }

  /** A call that leaves the state alone: realm or nonce missing, or an unknown algorithm. */
  predicate Neutral(lib: Library, call: Call) {
    call.challenge.realm.None? || call.challenge.nonce.None? || Selected(lib, call.challenge.algorithm).None?
  }

  /** A call that yields a header. */
  predicate Yields(lib: Library, call: Call) {
    !Neutral(lib, call) && call.ctime.Some? && call.random.Some? && QualityOf(call.challenge.qop) != Unsupported
  }

  /** A call that counts without yielding a header: an unsupported qop, or a callback that raises. */
  predicate Disturbs(lib: Library, call: Call) { !Neutral(lib, call) && !Yields(lib, call) }

  /** The answers in a row to this nonce, just before call number `n`: headers only. */
  ghost function Answers(lib: Library, calls: seq<Call>, n: nat, nonce: string): nat
    requires n <= |calls|
  {
    if n == 0 then 0
    else if !Yields(lib, calls[n - 1]) then Answers(lib, calls, n - 1, nonce)
    else if calls[n - 1].challenge.nonce == Some(nonce) then 1 + Answers(lib, calls, n - 1, nonce)
    else 0
  }

  /** The nonce of the last header; a fresh thread remembers the empty one. */
  ghost function LastAnswered(lib: Library, calls: seq<Call>, n: nat): string
    requires n <= |calls|
  {
    if n == 0 then ""
    else if Yields(lib, calls[n - 1]) then calls[n - 1].challenge.nonce.value
    else LastAnswered(lib, calls, n - 1)
  }

  /** What the thread counts for this nonce: a disturbing call adds one, or for another nonce starts again at one. */
  ghost function Tally(lib: Library, calls: seq<Call>, n: nat, nonce: string): nat
    requires n <= |calls|
  {
    if n == 0 then 0
    else
      var call, before := calls[n - 1], Tally(lib, calls, n - 1, nonce);
      if Neutral(lib, call) then before
      else if Yields(lib, call) then if call.challenge.nonce == Some(nonce) then 1 + before else 0
      else if LastAnswered(lib, calls, n - 1) != nonce then 0
      else if call.challenge.nonce == Some(nonce) then 1 + before
      else 1
  }

  /** The answers in a row that a disturbing call for another nonce has wiped out, if there was such a call. */
  ghost function Wiped(lib: Library, calls: seq<Call>, n: nat, nonce: string): Option<nat>
    requires n <= |calls|
  {
    if n == 0 then None
    else
      var call, before := calls[n - 1], Wiped(lib, calls, n - 1, nonce);
      if Neutral(lib, call) then before
      else if Yields(lib, call) then if call.challenge.nonce == Some(nonce) then before else None
      else if LastAnswered(lib, calls, n - 1) != nonce then None
      else if call.challenge.nonce == Some(nonce) then before
      else Some(Answers(lib, calls, n - 1, nonce))
  }

  /** The disturbing calls for this nonce since the answers in a row began or were last wiped out. */
  ghost function Extra(lib: Library, calls: seq<Call>, n: nat, nonce: string): nat
    requires n <= |calls|
  {
    if n == 0 then 0
    else
      var call, before := calls[n - 1], Extra(lib, calls, n - 1, nonce);
      if Neutral(lib, call) then before
      else if Yields(lib, call) then if call.challenge.nonce == Some(nonce) then before else 0
      else if LastAnswered(lib, calls, n - 1) != nonce then 0
      else if call.challenge.nonce == Some(nonce) then 1 + before
      else 0
  }

  /** In every run the next count is one more than the tally. */
  lemma {:induction false} CountIsTally(lib: Library, calls: seq<Call>, n: nat, nonce: string)
    requires n <= |calls|
    ensures NextCount(StateAfter(lib, calls, n), nonce) == 1 + Tally(lib, calls, n, nonce)
    ensures StateAfter(lib, calls, n).lastNonce == LastAnswered(lib, calls, n)
  {
    hide HeaderText, PythonTarget, Selected, QualityOf;
    if n > 0 { CountIsTally(lib, calls, n - 1, nonce); }
  }

  /** The tally by what happened since the answers in a row began. */
  lemma {:induction false} TallyMeaning(lib: Library, calls: seq<Call>, n: nat, nonce: string)
    requires n <= |calls|
    ensures var wiped := Wiped(lib, calls, n, nonce);
            Tally(lib, calls, n, nonce) + (if wiped.Some? then wiped.value else 0) ==
            Answers(lib, calls, n, nonce) + Extra(lib, calls, n, nonce) + if wiped.Some? then 1 else 0
    ensures LastAnswered(lib, calls, n) != nonce ==>
              && Tally(lib, calls, n, nonce) == 0 && Answers(lib, calls, n, nonce) == 0
              && Extra(lib, calls, n, nonce) == 0 && Wiped(lib, calls, n, nonce) == None
  {
    hide Neutral, QualityOf;
    if n > 0 { TallyMeaning(lib, calls, n - 1, nonce); }
  }

  /** The next answer to this nonce has the count it should have. */
  ghost predicate InStep(lib: Library, calls: seq<Call>, n: nat, nonce: string)
    requires n <= |calls|
  {
    var wiped := Wiped(lib, calls, n, nonce);
    Extra(lib, calls, n, nonce) + (if wiped.Some? then 1 else 0) == if wiped.Some? then wiped.value else 0
  }

  /**
    Counting, exactly, in every run: a header carries one more than the tally, and this is k for the k-th answer
    in a row to its nonce if and only if no disturbing call was for that nonce and none wiped answers
    out, or those after the last wipe make up for what it wiped out.
  */
  lemma CountRightIff(lib: Library, calls: seq<Call>, n: nat)
    requires n < |calls| && Yields(lib, calls[n])
    ensures var call, selected := calls[n], Selected(lib, calls[n].challenge.algorithm).value;
            var nonce := call.challenge.nonce.value;
            var count := 1 + Tally(lib, calls, n, nonce);
            && Reference(lib, call, StateAfter(lib, calls, n), PythonTarget(call.url)).0 ==
               Header(HeaderText(lib, selected.0, selected.1, call, PythonTarget(call.url), count))
            && (count == 1 + Answers(lib, calls, n, nonce) <==> InStep(lib, calls, n, nonce))
  {
    hide HeaderText, PythonTarget, Selected, QualityOf;
    CountIsTally(lib, calls, n, calls[n].challenge.nonce.value);
    TallyMeaning(lib, calls, n, calls[n].challenge.nonce.value);
  }

  lemma {:induction false} NothingWiped(lib: Library, calls: seq<Call>, n: nat, nonce: string)
    requires n <= |calls| && forall i :: 0 <= i < n ==> !Disturbs(lib, calls[i])
    ensures InStep(lib, calls, n, nonce) && Wiped(lib, calls, n, nonce) == None
  {
    hide Neutral, QualityOf;
    if n > 0 { NothingWiped(lib, calls, n - 1, nonce); }
  }

  /**
    In a run in which every call yields a header or leaves the state alone, the count sent
    with the k-th answer in a row to one nonce is k.
  */
  lemma NonceCounts(lib: Library, calls: seq<Call>, n: nat)
    requires n < |calls| && (forall i :: 0 <= i < n ==> Neutral(lib, calls[i]) || Yields(lib, calls[i]))
    requires Yields(lib, calls[n])
    ensures var call, selected := calls[n], Selected(lib, calls[n].challenge.algorithm).value;
            Reference(lib, call, StateAfter(lib, calls, n), PythonTarget(call.url)).0 ==
            Header(HeaderText(lib, selected.0, selected.1, call, PythonTarget(call.url),
                              1 + Answers(lib, calls, n, call.challenge.nonce.value)))
  {
    hide HeaderText, PythonTarget, Selected, QualityOf;
    CountRightIff(lib, calls, n);
    NothingWiped(lib, calls, n, calls[n].challenge.nonce.value);
  }

  /** A challenge that asks for "auth-int" alone between two answers: the second answer carries count 3. */
  lemma DisturbedCounterexample(lib: Library, call: Call)
    requires Yields(lib, call)
    ensures var nonce := call.challenge.nonce.value;
            var other := call.(challenge := call.challenge.(qop := Some("auth-int")));
            var calls := [call, other, call];
            && Disturbs(lib, other)
            && Answers(lib, calls, 2, nonce) == 1 && !InStep(lib, calls, 2, nonce)
            && NextCount(StateAfter(lib, calls, 2), nonce) == 3
  {
    hide HeaderText, PythonTarget, Selected, Split;
    var other := call.(challenge := call.challenge.(qop := Some("auth-int")));
    var calls, nonce := [call, other, call], call.challenge.nonce.value;
    SplitWhole("auth-int", ',');
    assert "auth" != "auth-int" by { assert |"auth"| == 4 && |"auth-int"| == 8; }
    assert Disturbs(lib, other);
    hide QualityOf;
    assert calls[0] == call && calls[1] == other;
    assert Answers(lib, calls, 0, nonce) == Extra(lib, calls, 0, nonce) == Tally(lib, calls, 0, nonce) == 0;
    assert LastAnswered(lib, calls, 1) == nonce && Extra(lib, calls, 1, nonce) == 0 && Tally(lib, calls, 1, nonce) == 1;
    assert Wiped(lib, calls, 1, nonce) == Wiped(lib, calls, 0, nonce) == None;
    assert Answers(lib, calls, 1, nonce) == 1;
    CountIsTally(lib, calls, 2, nonce);
  }
}
