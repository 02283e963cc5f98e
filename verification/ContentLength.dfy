/**
  Detection of Content-Length values that do not fit into 64 bits. Header values are byte strings,
  written here as strings of the characters with those codes.
*/
module ContentLength {
  import opened Prelude

  datatype Header = Header(name: string, value: string)

  // ----- tokens -----

  predicate IsSpace(c: char) { c == ' ' || c == '\t' }

  predicate SameIgnoringCase(a: string, b: string) {
    |a| == |b| && forall i :: 0 <= i < |a| ==> LowerChar(a[i]) == LowerChar(b[i])
  }

  function TrimStart(s: string): string {
    if s != "" && IsSpace(s[0]) then TrimStart(s[1..]) else s
  }

  function TrimEnd(s: string): string {
    if s != "" && IsSpace(s[|s| - 1]) then TrimEnd(s[..|s| - 1]) else s
  }

  function Trim(s: string): string { TrimEnd(TrimStart(s)) }

  /** `r` is `bytes` without the blanks and tabs at both ends. */
  ghost predicate Stripped(bytes: string, r: string, i: nat, j: nat) {
    && i <= j <= |bytes| && r == bytes[i..j]
    && (forall k :: 0 <= k < |bytes| && (k < i || j <= k) ==> bytes[k] == ' ' || bytes[k] == '\t')
    && (r != "" ==> r[0] != ' ' && r[0] != '\t' && r[|r| - 1] != ' ' && r[|r| - 1] != '\t')
  }

  lemma {:induction false} TrimStartMeaning(s: string) returns (i: nat)
    ensures i <= |s| && TrimStart(s) == s[i..] && (i < |s| ==> !IsSpace(s[i])) && forall k :: 0 <= k < i ==>
              IsSpace(s[k])
  {
    i := 0;
    if s != "" && IsSpace(s[0]) {
      var n := TrimStartMeaning(s[1..]);
      i := n + 1;
      assert forall k :: 0 < k < i ==> s[k] == s[1..][k - 1];
    }
  }

  lemma {:induction false} TrimEndMeaning(s: string) returns (j: nat)
    ensures j <= |s| && TrimEnd(s) == s[..j] && (j > 0 ==> !IsSpace(s[j - 1])) && forall k :: j <= k < |s| ==>
              IsSpace(s[k])
  {
    j := |s|;
    if s == "" || !IsSpace(s[|s| - 1]) {
      assert s[..|s|] == s;
    } else {
      j := TrimEndMeaning(s[..|s| - 1]);
      assert forall k :: j <= k < |s| - 1 ==> s[k] == s[..|s| - 1][k];
    }
  }

  lemma TrimMeaning(s: string) returns (i: nat, j: nat)
    ensures Stripped(s, Trim(s), i, j)
  {
    i := TrimStartMeaning(s);
    var front := s[i..];
    var n := TrimEndMeaning(front);
    j := i + n;
    assert front[..n] == s[i..j];
    forall k | j <= k < |s| ensures IsSpace(s[k]) { assert front[k - i] == s[k]; }
    if n > 0 { assert front[n - 1] == s[j - 1] && front[0] == s[i]; }
  }

  method TrimOws(bytes: string) returns (r: string)
    ensures r == Trim(bytes) && exists i, j :: Stripped(bytes, r, i, j)
  {
    var i, j := TrimMeaning(bytes);
    r := bytes;
    while r != "" && IsSpace(r[0])
      invariant TrimStart(r) == TrimStart(bytes)
      decreases |r|
    {
      r := r[1..];
    }
    while r != "" && IsSpace(r[|r| - 1])
      invariant TrimEnd(r) == Trim(bytes)
      decreases |r|
    {
      r := r[..|r| - 1];
    }
  }

  function Tokens(value: string): seq<string> {
    var parts := Split(value, ',');
    seq(|parts|, i requires 0 <= i < |parts| => Trim(parts[i]))
  }

  /** All tokens of all headers of this name, in order. */
  function TokensOf(headers: seq<Header>, name: string): seq<string> {
    if headers == [] then []
    else
      var n := |headers| - 1;
      TokensOf(headers[..n], name) + if SameIgnoringCase(headers[n].name, name) then Tokens(headers[n].value) else []
  }

  ghost predicate Chunked(headers: seq<Header>) {
    exists token :: token in TokensOf(headers, "transfer-encoding") && SameIgnoringCase(token, "chunked")
  }

  // ----- numbers -----

  predicate IsNumber(s: string) { s != "" && forall i :: 0 <= i < |s| ==> IsDigit(s[i]) }

  function DigitValue(c: char): (d: nat)
    requires IsDigit(c)
    ensures d < 10
  {
    c as int - '0' as int
  }

  function Value(s: string): nat
    requires forall i :: 0 <= i < |s| ==> IsDigit(s[i])
  {
    if s == "" then 0 else 10 * Value(s[..|s| - 1]) + DigitValue(s[|s| - 1])
  }

  /** Without a leading zero, except for zero itself. */
  predicate IsCanonical(s: string) { IsNumber(s) && (s[0] == '0' ==> |s| == 1) }

  /** `token.iter().position(…)`: the digits from the first that is not zero, or else the last one. */
  function Canonical(s: string): (r: string)
    requires IsNumber(s)
  {
    if s[0] != '0' || |s| == 1 then s else Canonical(s[1..])
  }

  /** The digits of a number by name, and its value by position. */
  lemma ValueWritten(s: string, d: nat)
    requires d < 10 && forall i :: 0 <= i < |s| ==> IsDigit(s[i])
    ensures var c := "0123456789"[d]; IsDigit(c) && DigitValue(c) == d && Value(s + [c]) == 10 * Value(s) + d
  {
    var c := "0123456789"[d];
    assert (s + [c])[..|s|] == s;
  }

  lemma {:induction false} LeadingZero(s: string)
    requires IsNumber(s) && s[0] == '0'
    ensures Value(s) == Value(s[1..])
  {
    if |s| > 1 {
      LeadingZero(s[..|s| - 1]);
      assert s[1..][..|s| - 2] == s[..|s| - 1][1..];
    }
  }

  lemma {:induction false} CanonicalKeepsValue(s: string)
    requires IsNumber(s)
    ensures IsCanonical(Canonical(s)) && Value(Canonical(s)) == Value(s)
  {
    if s[0] == '0' && |s| > 1 {
      LeadingZero(s);
      CanonicalKeepsValue(s[1..]);
    }
  }

  lemma {:induction false} CanonicalPositive(s: string)
    requires IsNumber(s) && s[0] != '0'
    ensures Value(s) > 0
  {
    if |s| > 1 { CanonicalPositive(s[..|s| - 1]); }
  }

  /** Canonical digit strings are equal exactly when the numbers they denote are. */
  lemma {:induction false} CanonicalUnique(a: string, b: string)
    requires IsCanonical(a) && IsCanonical(b)
    ensures a == b <==> Value(a) == Value(b)
  {
    if Value(a) == Value(b) {
      var m, n := |a| - 1, |b| - 1;
      assert Value(a[..m]) == Value(b[..n]) && a[m] == b[n];
      if m > 0 { CanonicalPositive(a[..m]); }
      if n > 0 { CanonicalPositive(b[..n]); }
      if m > 0 && n > 0 { CanonicalUnique(a[..m], b[..n]); }
      assert a == a[..m] + [a[m]] && b == b[..n] + [b[n]];
    }
  }

  lemma {:induction false} ValueGrows(s: string, i: nat)
    requires IsNumber(s) && i <= |s|
    ensures Value(s[..i]) <= Value(s)
    decreases |s| - i
  {
    if i == |s| {
      assert s[..i] == s;
    } else {
      ValueGrows(s, i + 1);
      assert s[..i + 1][..i] == s[..i];
    }
  }

  /** `str::parse::<u64>`: accumulation that stops at the first overflow. */
  method ParseU64(s: string) returns (r: Option<nat>)
    requires IsNumber(s)
    ensures r == if Value(s) < 18446744073709551616 then Some(Value(s)) else None
  {
    var n := 0;
    for i := 0 to |s|
      invariant n == Value(s[..i]) < U64
    {
      assert s[..i + 1][..i] == s[..i];
      n := 10 * n + DigitValue(s[i]);
      ValueGrows(s, i + 1);
      if n >= U64 { return None; }
    }
    assert s[..|s|] == s;
    r := Some(n);
  }

  // ----- main result -----

  /** Every Content-Length token denotes the number `n`, which is too large, and the body is not chunked. */
  ghost predicate Overflows(headers: seq<Header>, n: nat) {
    && !Chunked(headers) && TokensOf(headers, "content-length") != [] && n >= U64
    && Agree(TokensOf(headers, "content-length"), n)
  }

  /** All tokens denote the number `n`. */
  ghost predicate Agree(tokens: seq<string>, n: nat) {
    forall token :: token in tokens ==> IsNumber(token) && Value(token) == n
  }

  /** Header number `i` has this name, in whatever case it is written, and this token among others. */
  predicate HasToken(headers: seq<Header>, i: int, name: string, token: string) {
    0 <= i < |headers| && SameIgnoringCase(headers[i].name, name) && token in Tokens(headers[i].value)
  }

  /** The tokens of a name are those of every header with this name, in whatever case it is written. */
  lemma {:induction false} TokensOfMeaning(headers: seq<Header>, name: string, token: string)
    ensures token in TokensOf(headers, name) <==> exists i :: HasToken(headers, i, name, token)
  {
    hide SameIgnoringCase, Tokens;
    if headers != [] {
      var n := |headers| - 1;
      TokensOfMeaning(headers[..n], name, token);
      if token in TokensOf(headers[..n], name) {
        var i :| HasToken(headers[..n], i, name, token);
        assert headers[i] == headers[..n][i] && HasToken(headers, i, name, token);
      }
      if token in TokensOf(headers, name) && token !in TokensOf(headers[..n], name) {
        assert HasToken(headers, n, name, token);
      }
      if exists i :: HasToken(headers, i, name, token) {
        var i :| HasToken(headers, i, name, token);
        if i < n { assert headers[..n][i] == headers[i] && HasToken(headers[..n], i, name, token); }
      }
    }
  }

  lemma {:induction false} TokenOfHeader(headers: seq<Header>, i: nat, name: string, token: string)
    requires i < |headers| && SameIgnoringCase(headers[i].name, name) && token in Tokens(headers[i].value)
    ensures token in TokensOf(headers, name)
  {
    hide SameIgnoringCase, Tokens;
    var n := |headers| - 1;
    if i < n { TokenOfHeader(headers[..n], i, name, token); }
  }

  method IsChunked(headers: seq<Header>) returns (r: bool)
    ensures r <==> Chunked(headers)
  {
    hide SameIgnoringCase, Trim, Split;
    for i := 0 to |headers|
      invariant !Chunked(headers[..i])
    {
      assert headers[..i + 1][..i] == headers[..i];
      if SameIgnoringCase(headers[i].name, "transfer-encoding") {
        var parts := Split(headers[i].value, ',');
        for j := 0 to |parts|
          invariant forall k :: 0 <= k < j ==> !SameIgnoringCase(Tokens(headers[i].value)[k], "chunked")
        {
          var token := TrimOws(parts[j]);
          assert token == Tokens(headers[i].value)[j];
          if SameIgnoringCase(token, "chunked") {
            TokenOfHeader(headers, i, "transfer-encoding", token);
            return true;
          }
        }
      }
    }
    assert headers[..|headers|] == headers;
    r := false;
  }

  /** What the loop knows of the tokens read so far. */
  ghost predicate Declares(declared: Option<string>, tokens: seq<string>) {
    && (declared.None? <==> tokens == [])
    && (declared.Some? ==> IsCanonical(declared.value) && Agree(tokens, Value(declared.value)))
  }

  /** One token more, or a contradiction. */
  method ReadToken(declared: Option<string>, token: string, ghost before: seq<string>) returns (r: Option<string>)
    requires Declares(declared, before)
    ensures if r.Some? then Declares(r, before + [token]) else forall n :: !Agree(before + [token], n)
  {
    hide Value, IsNumber, IsCanonical, Canonical;
    assert token in before + [token];
    if !IsNumber(token) { return None; }
    CanonicalKeepsValue(token);
    var canonical := Canonical(token);
    if declared.Some? {
      CanonicalUnique(declared.value, canonical);
      if declared.value != canonical {
        assert before[0] in before + [token];
        return None;
      }
    }
    r := Some(canonical);
  }

  /**
    A length is reported exactly when the message is not chunked and all Content-Length tokens, of which
    there is at least one, denote one number above 2^64-1; what is reported is that
    number without leading zeros (section 8.6 of RFC 9110, section 6.3 of RFC 9112).
  */
  method OverflowingContentLength(headers: seq<Header>) returns (r: Option<string>)
    ensures r.Some? <==> exists n :: Overflows(headers, n)
    ensures r.Some? ==> IsCanonical(r.value) && Overflows(headers, Value(r.value))
    ensures r.Some? ==> Value(r.value) > 18446744073709551615
  {
    hide Value, Trim, Split, SameIgnoringCase, Tokens, IsCanonical, Agree, Declares;
    var chunked := IsChunked(headers);
    if chunked { return None; }
    var declared: Option<string> := None;
    NothingDeclared();
    for i := 0 to |headers|
      invariant Declares(declared, TokensOf(headers[..i], "content-length"))
    {
      assert headers[..i + 1][..i] == headers[..i];
      ghost var before := TokensOf(headers[..i], "content-length");
      if SameIgnoringCase(headers[i].name, "content-length") {
        var parts := Split(headers[i].value, ',');
        ghost var tokens := Tokens(headers[i].value);
        TokensTrimmed(headers[i].value);
        assert before + tokens[..0] == before;
        for j := 0 to |parts|
          invariant Declares(declared, before + tokens[..j])
        {
          var token := TrimOws(parts[j]);
          assert before + tokens[..j + 1] == before + tokens[..j] + [token];
          declared := ReadToken(declared, token, before + tokens[..j]);
          if declared.None? {
            assert before + tokens[..j + 1] <= before + tokens;
            Disagree(headers, i, before + tokens[..j + 1]);
            return None;
          }
        }
        assert before + tokens[..|tokens|] == before + tokens;
      } else {
        assert before + [] == before;
      }
    }
    assert headers[..|headers|] == headers;
    LengthDeclared(headers, declared);
    if declared.None? { return None; }
    var parsed := ParseU64(declared.value);
    if parsed.None? {
      assert Overflows(headers, Value(declared.value));
      return declared;
    }
    r := None;
  }

  lemma NothingDeclared()
    ensures Declares(None, TokensOf([], "content-length"))
  {
  }

  lemma TokensTrimmed(value: string)
    ensures var parts, tokens := Split(value, ','), Tokens(value);
            |tokens| == |parts| && forall j :: 0 <= j < |parts| ==> tokens[j] == Trim(parts[j])
  {
  }

  /** The declared length is the only number that the headers can overflow with. */
  lemma LengthDeclared(headers: seq<Header>, declared: Option<string>)
    requires !Chunked(headers) && Declares(declared, TokensOf(headers, "content-length"))
    ensures declared.None? ==> forall n :: !Overflows(headers, n)
    ensures declared.Some? ==> IsCanonical(declared.value) && IsNumber(declared.value)
    ensures declared.Some? ==> forall n :: Overflows(headers, n) <==> n == Value(declared.value) >= U64
  {
    hide Chunked, TokensOf, Value, IsNumber;
    if declared.Some? {
      var tokens := TokensOf(headers, "content-length");
      assert tokens[0] in tokens;
    }
  }

  /** Tokens that do not agree rule out every common number. */
  lemma Disagree(headers: seq<Header>, i: nat, seen: seq<string>)
    requires i < |headers| && forall n :: !Agree(seen, n)
    requires seen <= TokensOf(headers[..i + 1], "content-length")
    ensures forall n :: !Overflows(headers, n)
  {
    TokensPrefix(headers, i + 1);
    hide TokensOf;
    forall n | Agree(TokensOf(headers, "content-length"), n) ensures Agree(seen, n) {
      forall t | t in seen ensures t in TokensOf(headers, "content-length") {
        var k :| 0 <= k < |seen| && seen[k] == t;
        assert TokensOf(headers, "content-length")[k] == t;
      }
    }
  }

  lemma {:induction false} TokensPrefix(headers: seq<Header>, i: nat)
    requires i <= |headers|
    ensures TokensOf(headers[..i], "content-length") <= TokensOf(headers, "content-length")
  {
    var n := |headers| - 1;
    if i <= n {
      TokensPrefix(headers[..n], i);
      assert headers[..n][..i] == headers[..i];
    } else {
      assert headers[..i] == headers;
    }
  }
}
