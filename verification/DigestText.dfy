/**
  The Digest header, written out: what `Reference` of the module `Digest` answers for every challenge, in terms of the
  library functions, literal text and concatenation only, and what the numerals in it look like.
*/
module DigestText {
  import opened Prelude
  import opened Digest

  // ----- numerals -----

  function Digit(c: char): int {
    if '0' <= c <= '9' then c as int - '0' as int else if 'a' <= c <= 'f' then c as int - 'a' as int + 10 else -1
  }

  /** Every character is a digit of the base, in lower case. */
  predicate InBase(s: string, base: nat) { forall i :: 0 <= i < |s| ==> 0 <= Digit(s[i]) < base }

  /** Positional notation. */
  function Worth(s: string, base: nat): int {
    if s == "" then 0 else base * Worth(s[..|s| - 1], base) + Digit(s[|s| - 1])
  }

  /** A numeral is the number in positional notation, without a leading zero. */
  ghost predicate IsNumeral(r: string, n: nat, base: nat) {
    InBase(r, base) && Worth(r, base) == n && if n == 0 then r == "0" else r != "" && r[0] != '0'
  }

  lemma DigitAppended(front: string, n: nat, d: nat, base: nat)
    requires d < base <= 16 && n > 0 && IsNumeral(front, n, base)
    ensures IsNumeral(front + [HexDigit(d, 'a')], base * n + d, base)
  {
    var r := front + [HexDigit(d, 'a')];
    assert r[..|r| - 1] == front && Digit(HexDigit(d, 'a')) == d;
    assert Worth(r, base) == base * n + d;
    assert base * n > 0;
  }

  lemma OneDigit(d: nat, base: nat)
    requires d < base <= 16
    ensures IsNumeral([HexDigit(d, 'a')], d, base)
  {
    var r := [HexDigit(d, 'a')];
    assert r[..0] == "" && Worth("", base) == 0;
  }

  lemma {:induction false} DecimalWritten(n: nat)
    ensures IsNumeral(Numeral(n, 10), n, 10)
  {
    hide IsNumeral, HexDigit;
    if n < 10 {
      OneDigit(n, 10);
    } else {
      DecimalWritten(n / 10);
      DigitAppended(Numeral(n / 10, 10), n / 10, n % 10, 10);
    }
  }

  lemma {:induction false} HexWritten(n: nat)
    ensures IsNumeral(Numeral(n, 16), n, 16)
  {
    hide IsNumeral, HexDigit;
    if n < 16 {
      OneDigit(n, 16);
    } else {
      HexWritten(n / 16);
      DigitAppended(Numeral(n / 16, 16), n / 16, n % 16, 16);
    }
  }

  /** The `nc` text: eight digits as long as the count has 32 bits, and never a needless zero beyond that. */
  lemma Hex8Written(n: nat)
    ensures var r := Hex8(n);
            && InBase(r, 16) && Worth(r, 16) == n && |r| >= 8 && (|r| > 8 ==> r[0] != '0')
            && (n < U32 ==> |r| == 8)
  {
    HexWritten(n);
    hide Numeral, Worth;
    var r := Numeral(n, 16);
    if |r| < 8 { ZerosWorth(8 - |r|, r); }
    if |r| > 8 {
      LongWorth(r, 8);
      EightDigits();
    }
  }

  lemma EightDigits()
    ensures Power16(8) == U32
  {
  }

  lemma {:induction false} ZerosWorth(k: nat, s: string)
    ensures Worth(Zeros(k) + s, 16) == Worth(s, 16)
  {
    var z := Zeros(k) + s;
    if s == "" {
      if k > 0 {
        ZerosWorth(k - 1, s);
        assert z[..|z| - 1] == Zeros(k - 1) + s;
      }
    } else {
      ZerosWorth(k, s[..|s| - 1]);
      assert z[..|z| - 1] == Zeros(k) + s[..|s| - 1];
    }
  }

  /** More than `k` digits without a leading zero are worth at least 16 to the power of `k`. */
  lemma {:induction false} LongWorth(s: string, k: nat)
    requires InBase(s, 16) && |s| > k && s[0] != '0'
    ensures Worth(s, 16) >= Power16(k) > 0
  {
    var front := s[..|s| - 1];
    if front == "" {
      assert Worth(front, 16) == 0;
    } else {
      LongWorth(front, if k > 0 then k - 1 else 0);
    }
  }

  // ----- the header -----

  /** The hash by the name of the algorithm, and whether it is the session variant. */
  function HashNamed(name: string): Option<(Hash, bool)> {
    match name
    case "MD5" => Some((Md5, false))
    case "MD5-SESS" => Some((Md5, true))
    case "SHA" => Some((Sha1, false))
    case "SHA-256" => Some((Sha256, false))
    case "SHA-512" => Some((Sha512, false))
    case _ => None
  }

  /** A field that is left out when it is missing or empty. */
  function Given(value: Option<string>, text: string): string {
    if value.None? || value.value == "" then "" else text
  }

  /** The header text for a hash, the request target, the count and the two random inputs. */
  function Written(lib: Library, hash: Hash, session: bool, call: Call, target: string, count: nat,
    ctime: Bytes, random: Bytes): string
    requires call.challenge.realm.Some? && call.challenge.nonce.Some?
  {
    var c := call.challenge;
    var realm, nonce, nc := c.realm.value, c.nonce.value, Hex8(count);
    var hashed := (text: string) => lib.hex(hash, lib.utf8(text));
    var seed := lib.hex(Sha1, lib.utf8(Numeral(count, 10)) + lib.utf8(nonce) + ctime + random);
    var cnonce := if |seed| < 16 then seed else seed[..16];
    var plain := hashed(call.username + ":" + realm + ":" + call.password);
    var ha1 := if session then hashed(plain + ":" + nonce + ":" + cnonce) else plain;
    var ha2 := hashed(call.verb + ":" + target);
    var response := if c.qop.None? || c.qop.value == "" then hashed(ha1 + ":" + nonce + ":" + ha2)
                    else hashed(ha1 + ":" + nonce + ":" + nc + ":" + cnonce + ":auth:" + ha2);
    "Digest "
    + ("username=\"" + call.username + "\", realm=\"" + realm + "\", nonce=\"" + nonce + "\", uri=\"" + target
       + "\", response=\"" + response + "\""
       + Given(c.opaqueValue, ", opaque=\"" + Text(c.opaqueValue) + "\"")
       + Given(c.algorithm, ", algorithm=\"" + Text(c.algorithm) + "\"")
       + Given(c.qop, ", qop=\"auth\", nc=" + nc + ", cnonce=\"" + cnonce + "\""))
  }

  function Text(value: Option<string>): string { if value.Some? then value.value else "" }

  /** One call, written out: the answer and the state left behind. */
  function Answer(lib: Library, call: Call, s: State, target: string): (Outcome, State) {
    var c := call.challenge;
    if c.realm.None? || c.nonce.None? then (KeyError, s)
    else
      var named := HashNamed(if c.algorithm.None? then "MD5" else lib.upper(c.algorithm.value));
      var count := if c.nonce.value == s.lastNonce then s.nonceCount + 1 else 1;
      if named.None? then (NoHeader, s)
      else if call.ctime.None? || call.random.None? then (CallbackError, State(s.lastNonce, count))
      else if c.qop.Some? && c.qop.value != "" && "auth" !in Split(c.qop.value, ',') then
        (NoHeader, State(s.lastNonce, count))
      else
        var text := Written(lib, named.value.0, named.value.1, call, target, count, call.ctime.value,
          call.random.value);
        (Header(text), State(c.nonce.value, count))
  }

  lemma Glue(a: string, x: string, y: string)
    ensures (a + x) + y == a + (x + y)
  {
  }

  /** A field after a field: the quotes and the comma between them are one piece of text. */
  lemma NextField(front: string, name: string, value: string, between: string)
    requires between == "\", " + name + "=\""
    ensures front + "\"" + ", " + Field(name, value) == front + between + value + "\""
  {
    Glue(front, "\"", ", ");
    assert "\"" + ", " == "\", ";
    assert Field(name, value) == ((name + "=\"") + value) + "\"";
    Glue(front + "\", ", name + "=\"", value);
    Glue(front + "\", ", (name + "=\"") + value, "\"");
    Glue(front, "\", ", name + "=\"");
    Glue("\", ", name, "=\"");
  }

  lemma LastField(name: string, value: Option<string>, start: string)
    requires start == ", " + name + "=\""
    ensures OptionalField(name, value) == Given(value, start + Text(value) + "\"")
  {
    if value.Some? {
      Glue(", ", name + "=\"", value.value);
      Glue(", ", (name + "=\"") + value.value, "\"");
      Glue(", ", name, "=\"");
    }
  }

  lemma FieldsWritten(username: string, realm: string, nonce: string, target: string, response: string)
    ensures Field("username", username) + ", " + Field("realm", realm) + ", " + Field("nonce", nonce)
            + ", " + Field("uri", target) + ", " + Field("response", response)
            == "username=\"" + username + "\", realm=\"" + realm + "\", nonce=\"" + nonce + "\", uri=\"" + target
               + "\", response=\"" + response + "\""
  {
    assert "username" + "=\"" == "username=\"";
    assert Field("username", username) == "username=\"" + username + "\"";
    hide Field;
    var f1 := "username=\"" + username;
    var f2 := f1 + "\", realm=\"" + realm;
    var f3 := f2 + "\", nonce=\"" + nonce;
    var f4 := f3 + "\", uri=\"" + target;
    NextField(f1, "realm", realm, "\", realm=\"");
    NextField(f2, "nonce", nonce, "\", nonce=\"");
    NextField(f3, "uri", target, "\", uri=\"");
    NextField(f4, "response", response, "\", response=\"");
  }

  lemma ColonsWritten(a: string, nonce: string, nc: string, cnonce: string, ha2: string)
    ensures Colon(a, Colon(nonce, ha2)) == a + ":" + nonce + ":" + ha2
    ensures Colon(a, Colon(Colon(Colon(Colon(nonce, nc), cnonce), "auth"), ha2))
            == a + ":" + nonce + ":" + nc + ":" + cnonce + ":auth:" + ha2
  {
    Glue(a + ":", nonce + ":", ha2);
    Glue(a + ":", nonce, ":");
    var m := nonce + ":" + nc + ":" + cnonce;
    assert ((m + ":") + "auth") + ":" == m + ":auth:" by {
      Glue(m, ":", "auth");
      Glue(m, ":auth", ":");
      assert ":" + "auth" == ":auth" && ":auth" + ":" == ":auth:";
    }
    Glue(a + ":", m + ":auth:", ha2);
    Glue(a + ":", m, ":auth:");
    Glue(a + ":", nonce + ":" + nc + ":", cnonce);
    Glue(a + ":", nonce + ":" + nc, ":");
    Glue(a + ":", nonce + ":", nc);
    Glue(a + ":", nonce, ":");
  }

  lemma ResponseWritten(lib: Library, hash: Hash, session: bool, call: Call, target: string, count: nat, cnonce: string)
    requires call.challenge.realm.Some? && call.challenge.nonce.Some? && QualityOf(call.challenge.qop) != Unsupported
    ensures var c := call.challenge;
            var realm, nonce := c.realm.value, c.nonce.value;
            var hashed := (text: string) => lib.hex(hash, lib.utf8(text));
            var plain := hashed(call.username + ":" + realm + ":" + call.password);
            var ha1 := if session then hashed(plain + ":" + nonce + ":" + cnonce) else plain;
            var ha2 := hashed(call.verb + ":" + target);
            ResponseOf(lib, hash, session, call, target, count, cnonce)
            == if c.qop.None? || c.qop.value == "" then hashed(ha1 + ":" + nonce + ":" + ha2)
               else hashed(ha1 + ":" + nonce + ":" + Hex8(count) + ":" + cnonce + ":auth:" + ha2)
  {
    hide Hex8, Split;
    var ha1 := SecretOf(lib, hash, session, call, cnonce);
    ColonsWritten(ha1, call.challenge.nonce.value, Hex8(count), cnonce, H(lib, hash, Colon(call.verb, target)));
  }

  lemma HeaderWritten(lib: Library, hash: Hash, session: bool, call: Call, target: string, count: nat)
    requires call.challenge.realm.Some? && call.challenge.nonce.Some? && call.ctime.Some? && call.random.Some?
    requires QualityOf(call.challenge.qop) != Unsupported
    ensures HeaderText(lib, hash, session, call, target, count)
            == Written(lib, hash, session, call, target, count, call.ctime.value, call.random.value)
  {
    hide Hex8, Split, ResponseOf, Field, OptionalField;
    var c := call.challenge;
    var nonce := c.nonce.value;
    var cnonce := Cnonce(lib, count, nonce, call.ctime.value, call.random.value);
    var response := ResponseOf(lib, hash, session, call, target, count, cnonce);
    ResponseWritten(lib, hash, session, call, target, count, cnonce);
    FieldsWritten(call.username, c.realm.value, nonce, target, response);
    LastField("opaque", c.opaqueValue, ", opaque=\"");
    LastField("algorithm", c.algorithm, ", algorithm=\"");
    CountFields(c.qop, Hex8(count), cnonce);
  }

  /** The fields that only a quality of protection brings. */
  lemma CountFields(qop: Option<string>, nc: string, cnonce: string)
    requires QualityOf(qop) != Unsupported
    ensures (if QualityOf(qop) == Plain then "" else ", qop=\"auth\", nc=" + nc + ", " + Field("cnonce", cnonce))
            == Given(qop, ", qop=\"auth\", nc=" + nc + ", cnonce=\"" + cnonce + "\"")
  {
    hide Split;
    var front := ", qop=\"auth\", nc=" + nc;
    assert Field("cnonce", cnonce) == (("cnonce" + "=\"") + cnonce) + "\"";
    Glue(front + ", ", "cnonce" + "=\"", cnonce);
    Glue(front + ", ", ("cnonce" + "=\"") + cnonce, "\"");
    Glue(front, ", ", "cnonce" + "=\"");
    assert ", " + ("cnonce" + "=\"") == ", cnonce=\"";
  }

  /** The reference says, for every challenge and state, what is written out here. */
  lemma ReferenceWritten(lib: Library, call: Call, s: State, target: string)
    ensures Reference(lib, call, s, target) == Answer(lib, call, s, target)
  {
    hide HeaderText, Written, Split;
    var c := call.challenge;
    if c.realm.Some? && c.nonce.Some? && call.ctime.Some? && call.random.Some? && QualityOf(c.qop) != Unsupported
       && Selected(lib, c.algorithm).Some?
    {
      var (hash, session) := Selected(lib, c.algorithm).value;
      var count := if c.nonce.value == s.lastNonce then s.nonceCount + 1 else 1;
      HeaderWritten(lib, hash, session, call, target, count);
    }
  }
}
