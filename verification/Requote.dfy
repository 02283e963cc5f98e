/**
  Re-quoting of URIs: unescape what need not be escaped, then escape what must be. The reference for
  what a URI means is `Decode`, plain percent-decoding.
*/
module Requote {
  import opened Prelude

  // ----- characters -----

  predicate IsAlnum(c: char) { IsDigit(c) || IsLetter(c) }

  /** Section 2.3 of RFC 3986. */
  predicate IsUnreserved(c: char) { IsAlnum(c) || c == '-' || c == '.' || c == '_' || c == '~' }

  /** The characters `requote_uri` declares safe, '%' aside. */
  predicate IsSafe(c: char) { IsUnreserved(c) || c in "!#$&'()*+,/:;=?@[]~" }

  predicate IsAscii(s: string) { forall i :: 0 <= i < |s| ==> s[i] as int < 128 }

  /** The character a two-digit escape stands for. */
  function Escaped(high: char, low: char): char
    requires IsHex(high) && IsHex(low)
  {
    (16 * HexValue(high) + HexValue(low)) as char
  }

  // ----- unquote_unreserved -----

  /** A '%' followed by two alphanumeric characters: the code treats this, and nothing else, as an escape. */
  predicate AtEscape(s: string) {
    |s| >= 3 && s[0] == '%' && IsAlnum(s[1]) && IsAlnum(s[2])
  }

  /** The meaning of `unquote_unreserved`; `None` is InvalidURL. */
  function Unquote(s: string): Option<string> {
    if s == "" then Some("")
    else if AtEscape(s) then
      if !IsHex(s[1]) || !IsHex(s[2]) then None
      else
        var c := Escaped(s[1], s[2]);
        Prepend(if IsUnreserved(c) then [c] else s[..3], Unquote(s[3..]))
    else Prepend(s[..1], Unquote(s[1..]))
  }

  function Prepend(front: string, rest: Option<string>): Option<string> {
    if rest.None? then None else Some(front + rest.value)
  }

  lemma PrependTwice(a: string, b: string, rest: Option<string>)
    ensures Prepend(a, Prepend(b, rest)) == Prepend(a + b, rest)
  {
    if rest.Some? { assert a + (b + rest.value) == (a + b) + rest.value; }
  }

  lemma PrependNothing(rest: Option<string>)
    ensures Prepend("", rest) == rest
  {
    if rest.Some? { assert "" + rest.value == rest.value; }
  }

  /** What the loop makes of one part after the first. */
  function Rewritten(part: string): Option<string> {
    if |part| >= 2 && IsAlnum(part[0]) && IsAlnum(part[1]) then
      if !IsHex(part[0]) || !IsHex(part[1]) then None
      else
        var c := Escaped(part[0], part[1]);
        Some(if IsUnreserved(c) then [c] + part[2..] else "%" + part)
    else Some("%" + part)
  }

  function RewrittenAll(parts: seq<string>): Option<string> {
    if parts == [] then Some("")
    else
      var first := Rewritten(parts[0]);
      if first.None? then None else Prepend(first.value, RewrittenAll(parts[1..]))
  }

  /** Splitting on '%' and rewriting the parts one by one is the same as scanning the string. */
  lemma {:induction false} UnquoteBySplitting(s: string)
    ensures Unquote(s) == Prepend(Split(s, '%')[0], RewrittenAll(Split(s, '%')[1..]))
  {
    hide IsAlnum, IsHex, IsUnreserved, Escaped;
    if s == "" {
      assert Split(s, '%')[1..] == [];
      PrependNothing(Some(""));
    } else if s[0] != '%' {
      UnquoteBySplitting(s[1..]);
      var rest := Split(s[1..], '%');
      assert s[..1] == [s[0]] && Split(s, '%')[1..] == rest[1..];
      hide Split, RewrittenAll;
      PrependTwice(s[..1], rest[0], RewrittenAll(rest[1..]));
    } else {
      var rest := Split(s[1..], '%');
      assert Split(s, '%')[0] == "" && Split(s, '%')[1..] == rest;
      PrependNothing(RewrittenAll(rest));
      hide Split;
      var tail := RewrittenAll(rest[1..]);
      PartAfterPercent(s);
      if AtEscape(s) {
        UnquoteBySplitting(s[3..]);
        EscapeRewritten(s, rest[0], tail);
      } else {
        UnquoteBySplitting(s[1..]);
        PrependTwice("%", rest[0], tail);
        assert s[..1] == "%" && Rewritten(rest[0]) == Some("%" + rest[0]);
      }
    }
  }

  lemma EscapeRewritten(s: string, part: string, tail: Option<string>)
    requires AtEscape(s) && |part| >= 2 && part[..2] == s[1..3]
    requires Unquote(s[3..]) == Prepend(part[2..], tail)
    ensures Unquote(s) == (if Rewritten(part).None? then None else Prepend(Rewritten(part).value, tail))
  {
    hide IsHex, IsUnreserved, Escaped;
    assert part[0] == part[..2][0] == s[1] && part[1] == part[..2][1] == s[2];
    if IsHex(s[1]) && IsHex(s[2]) {
      var c := Escaped(s[1], s[2]);
      PrependTwice(if IsUnreserved(c) then [c] else s[..3], part[2..], tail);
      assert s[..3] + part[2..] == "%" + part;
    }
  }

  lemma PartAfterPercent(s: string)
    requires s != "" && s[0] == '%'
    ensures var part := Split(s[1..], '%')[0];
            && (AtEscape(s) <==> |part| >= 2 && IsAlnum(part[0]) && IsAlnum(part[1]))
            && (AtEscape(s) ==>
                  && part[..2] == s[1..3] && part[2..] == Split(s[3..], '%')[0]
                  && Split(s[1..], '%')[1..] == Split(s[3..], '%')[1..])
  {
    if |s| >= 2 { assert s[1..][1..] == s[2..]; }
    if |s| >= 3 { assert s[2..][1..] == s[3..]; }
  }

  method UnquoteUnreserved(uri: string) returns (r: Option<string>)
    ensures r == Unquote(uri)
  {
    hide IsAlnum, IsHex, IsUnreserved, Escaped, Unquote;
    UnquoteBySplitting(uri);
    var parts := Split(uri, '%');
    ghost var original := parts;
    assert Prepend("", RewrittenAll(original[1..])) == RewrittenAll(original[1..]) by {
      PrependNothing(RewrittenAll(original[1..]));
    }
    for i := 1 to |parts|
      invariant |parts| == |original| && parts[0] == original[0] && parts[i..] == original[i..]
      invariant RewrittenAll(original[1..]) == Prepend(Join(parts[1..i]), RewrittenAll(original[i..]))
    {
      var part := parts[i];
      assert part == original[i] && original[i..][0] == part && original[i..][1..] == original[i + 1..];
      if |part| >= 2 && IsAlnum(part[0]) && IsAlnum(part[1]) {
        if !IsHex(part[0]) || !IsHex(part[1]) { return None; }
        var c := Escaped(part[0], part[1]);
        if IsUnreserved(c) { part := [c] + part[2..]; } else { part := "%" + part; }
      } else {
        part := "%" + part;
      }
      assert Rewritten(original[i]) == Some(part);
      assert parts[i := part][1..i + 1] == parts[1..i] + [part];
      JoinAppend(parts[1..i], part);
      PrependTwice(Join(parts[1..i]), part, RewrittenAll(original[i + 1..]));
      parts := parts[i := part];
    }
    assert parts[1..|parts|] == parts[1..] && original[|parts|..] == [];
    assert Join(parts[1..]) + "" == Join(parts[1..]);
    r := Some(Join(parts));
  }

  // ----- quote and requote_uri -----

  /** `urllib.parse.quote` on an ASCII string. */
  function Quote(s: string, percentIsSafe: bool): string
    requires IsAscii(s)
  {
    if s == "" then ""
    else QuoteChar(s[0], percentIsSafe) + Quote(s[1..], percentIsSafe)
  }

  function QuoteChar(c: char, percentIsSafe: bool): string
    requires c as int < 128
  {
    if IsSafe(c) || (percentIsSafe && c == '%') then [c]
    else ['%', HexDigit(c as int / 16, 'A'), HexDigit(c as int % 16, 'A')]
  }

  lemma {:induction false} UnquoteAscii(s: string)
    requires IsAscii(s)
    ensures Unquote(s).Some? ==> IsAscii(Unquote(s).value)
  {
    if s != "" {
      if AtEscape(s) {
        UnquoteAscii(s[3..]);
      } else {
        UnquoteAscii(s[1..]);
      }
    }
  }

  function RequoteUri(uri: string): string
    requires IsAscii(uri)
  {
    UnquoteAscii(uri);
    match Unquote(uri)
    case Some(text) => Quote(text, true)
    case None => Quote(uri, false)
  }

  // ----- meaning -----

  predicate AtHexEscape(s: string) {
    |s| >= 3 && s[0] == '%' && IsHex(s[1]) && IsHex(s[2])
  }

  /** Percent-decoding; a '%' that starts no escape stands for itself. */
  function Decode(s: string): seq<int> {
    if s == "" then []
    else if AtHexEscape(s) then [Escaped(s[1], s[2]) as int] + Decode(s[3..])
    else [s[0] as int] + Decode(s[1..])
  }

  function Codes(s: string): seq<int> {
    seq(|s|, i requires 0 <= i < |s| => s[i] as int)
  }

  /** Every '%' is followed by two hexadecimal digits. */
  predicate WellFormed(s: string) {
    forall i :: 0 <= i < |s| && s[i] == '%' ==> i + 2 < |s| && IsHex(s[i + 1]) && IsHex(s[i + 2])
  }

  // ----- which URIs keep their meaning -----

  /** The alphanumeric character that `s` starts with once unescaped, and what follows it. */
  function Unit(s: string): Option<(char, string)> {
    if s != "" && IsAlnum(s[0]) then Some((s[0], s[1..]))
    else if AtHexEscape(s) && IsAlnum(Escaped(s[1], s[2])) then Some((Escaped(s[1], s[2]), s[3..]))
    else None
  }

  function TwoUnits(s: string): Option<(char, char)> {
    if Unit(s).None? then None
    else
      var second := Unit(Unit(s).value.1);
      if second.None? then None else Some((Unit(s).value.0, second.value.0))
  }

  /** A '%' that starts no escape, followed by two characters that will turn it into one. */
  predicate FusesHere(s: string) {
    s != "" && s[0] == '%' && !AtEscape(s)
    && TwoUnits(s[1..]).Some? && IsHex(TwoUnits(s[1..]).value.0) && IsHex(TwoUnits(s[1..]).value.1)
  }

  /** The stray '%'s of `s` that unescaping turns into new escapes, as in "%%341". */
  function Fusions(s: string): nat {
    if s == "" then 0
    else if AtEscape(s) then Fusions(s[3..])
    else (if FusesHere(s) then 1 else 0) + Fusions(s[1..])
  }

  function HasEscape(s: string): bool {
    s != "" && (AtHexEscape(s) || HasEscape(s[1..]))
  }

  function TwoAlnum(s: string): Option<(char, char)> {
    if |s| >= 2 && IsAlnum(s[0]) && IsAlnum(s[1]) then Some((s[0], s[1])) else None
  }

  lemma UnquoteStart(s: string)
    requires Unquote(s).Some?
    ensures var u := Unquote(s).value;
            if Unit(s).Some? then u != "" && u[0] == Unit(s).value.0 && IsAlnum(u[0])
              && Unquote(Unit(s).value.1) == Some(u[1..])
            else u == "" || !IsAlnum(u[0])
  {
    hide Escaped, IsUnreserved;
    assert forall c :: IsAlnum(c) ==> IsUnreserved(c) by { UnreservedAlnum(); }
    hide IsAlnum, IsHex;
    HexIsAlnum();
    if s != "" {
      if AtEscape(s) {
        var c := Escaped(s[1], s[2]);
        var rest := Unquote(s[3..]).value;
        assert ([c] + rest)[1..] == rest;
        assert (s[..3] + rest)[0] == '%';
      } else {
        var rest := Unquote(s[1..]).value;
        assert (s[..1] + rest)[1..] == rest && (s[..1] + rest)[0] == s[0];
      }
    }
  }

  lemma UnreservedAlnum()
    ensures forall c :: IsAlnum(c) ==> IsUnreserved(c)
  {
  }

  lemma HexIsAlnum()
    ensures forall c :: IsHex(c) ==> IsAlnum(c)
    ensures !IsAlnum('%') && !IsHex('%') && !IsUnreserved('%')
  {
  }

  lemma UnquoteStartsTwo(s: string)
    requires Unquote(s).Some?
    ensures TwoAlnum(Unquote(s).value) == TwoUnits(s)
  {
    hide Unquote, IsAlnum;
    UnquoteStart(s);
    if Unit(s).Some? { UnquoteStart(Unit(s).value.1); }
  }

  /** Each fusion costs two bytes of meaning; without one, unescaping keeps the meaning. */
  lemma {:induction false} DecodeUnquoted(s: string)
    requires Unquote(s).Some?
    ensures |Decode(Unquote(s).value)| + 2 * Fusions(s) == |Decode(s)|
    ensures Fusions(s) == 0 ==> Decode(Unquote(s).value) == Decode(s)
  {
    hide Escaped, IsUnreserved;
    if s != "" {
      var u := Unquote(s).value;
      if AtEscape(s) {
        var c, rest := Escaped(s[1], s[2]), Unquote(s[3..]).value;
        DecodeUnquoted(s[3..]);
        if IsUnreserved(c) {
          HexIsAlnum();
          assert u[0] == c && u[1..] == rest;
        } else {
          assert u[1] == s[1] && u[2] == s[2] && u[3..] == rest;
        }
      } else {
        var rest := Unquote(s[1..]).value;
        DecodeUnquoted(s[1..]);
        assert u[0] == s[0] && u[1..] == rest;
        UnquoteStartsTwo(s[1..]);
        if FusesHere(s) {
          DecodeSkips(rest);
          assert u[3..] == rest[2..] && u[1] == rest[0] && u[2] == rest[1];
        }
      }
    }
  }

  lemma DecodeSkips(s: string)
    requires |s| >= 2 && IsHex(s[0]) && IsHex(s[1])
    ensures |Decode(s)| == 2 + |Decode(s[2..])|
  {
    assert s[1..][1..] == s[2..];
    assert Decode(s) == [s[0] as int] + Decode(s[1..]);
  }

  lemma {:induction false} DecodeQuoted(s: string)
    requires IsAscii(s)
    ensures Decode(Quote(s, true)) == Decode(s)
  {
    if s != "" {
      var q := Quote(s, true);
      QuoteKeepsEscapes(s);
      if AtHexEscape(s) {
        DecodeQuoted(s[3..]);
      } else {
        DecodeQuoted(s[1..]);
        QuotedCharDecodes(s[0], true, Quote(s[1..], true));
      }
    }
  }

  lemma QuotedCharDecodes(c: char, percentIsSafe: bool, rest: string)
    requires c as int < 128
    requires percentIsSafe && c == '%' ==> !AtHexEscape("%" + rest)
    ensures Decode(QuoteChar(c, percentIsSafe) + rest) == [c as int] + Decode(rest)
  {
    var q := QuoteChar(c, percentIsSafe) + rest;
    if IsSafe(c) || (percentIsSafe && c == '%') {
      assert q[0] == c && q[1..] == rest;
    } else {
      assert q[3..] == rest && AtHexEscape(q);
    }
  }

  /** Quoting with '%' safe neither makes nor breaks an escape, whichever of the two notions is meant. */
  lemma QuoteKeepsEscapes(s: string)
    requires IsAscii(s) && s != ""
    ensures s[0] == '%' ==> (AtHexEscape(s) <==> AtHexEscape(Quote(s, true)))
    ensures s[0] == '%' ==> (AtEscape(s) <==> AtEscape(Quote(s, true)))
    ensures AtEscape(s) ==> Quote(s, true) == s[..3] + Quote(s[3..], true)
    ensures s[0] == '%' ==> Quote(s, true) == "%" + Quote(s[1..], true)
  {
    hide Quote, QuoteChar, IsAlnum, IsHex;
    HexIsAlnum();
    if s[0] == '%' {
      QuotedStart(s);
      if |s| >= 2 {
        assert s[1..][1..] == s[2..];
        QuotedStart(s[1..]);
        if |s| >= 3 {
          assert s[2..][1..] == s[3..];
          QuotedStart(s[2..]);
        }
      }
    }
  }

  /** Quoting keeps a first character that matters for escapes, and makes none. */
  lemma QuotedStart(s: string)
    requires IsAscii(s) && s != ""
    ensures var q := Quote(s, true);
            && q != "" && (IsAlnum(q[0]) <==> IsAlnum(s[0])) && (IsHex(q[0]) <==> IsHex(s[0]))
            && (IsAlnum(s[0]) || s[0] == '%' ==> q == [s[0]] + Quote(s[1..], true))
    ensures |s| == 1 ==> Quote(s[1..], true) == ""
  {
  }

  lemma {:induction false} DecodeFallback(s: string)
    requires IsAscii(s)
    ensures Decode(Quote(s, false)) == Codes(s)
  {
    if s != "" {
      DecodeFallback(s[1..]);
      QuotedCharDecodes(s[0], false, Quote(s[1..], false));
      assert Codes(s) == [s[0] as int] + Codes(s[1..]);
    }
  }

  lemma {:induction false} EscapesShorten(s: string)
    ensures |Decode(s)| <= |s|
    ensures !HasEscape(s) ==> Decode(s) == Codes(s)
    ensures HasEscape(s) ==> |Decode(s)| < |s|
  {
    hide IsHex, Escaped;
    if s != "" {
      if AtHexEscape(s) {
        EscapesShorten(s[3..]);
      } else {
        EscapesShorten(s[1..]);
        assert Codes(s) == [s[0] as int] + Codes(s[1..]);
      }
    }
  }

  /**
    Requoting keeps the meaning of an ASCII URI exactly when no stray '%' fuses with what
    follows it, or, if the URI has an invalid escape, when it has no valid one; in that
    case the output stands for the literal text of the input.
  */
  lemma RequoteKeepsMeaning(uri: string)
    requires IsAscii(uri)
    ensures Unquote(uri).None? ==> Decode(RequoteUri(uri)) == Codes(uri)
    ensures Decode(RequoteUri(uri)) == Decode(uri) <==>
              if Unquote(uri).None? then !HasEscape(uri) else Fusions(uri) == 0
  {
    UnquoteAscii(uri);
    if Unquote(uri).None? {
      DecodeFallback(uri);
      EscapesShorten(uri);
    } else {
      DecodeUnquoted(uri);
      DecodeQuoted(Unquote(uri).value);
    }
  }

  // ----- which URIs are left alone the second time -----

  /** A stray '%' that, after unescaping, looks like an invalid or an unnecessary escape. */
  predicate UnstableHere(s: string) {
    s != "" && s[0] == '%' && !AtEscape(s) && TwoUnits(s[1..]).Some?
    && var (a, b) := TwoUnits(s[1..]).value;
       !(IsHex(a) && IsHex(b) && !IsUnreserved(Escaped(a, b)))
  }

  predicate Unstable(s: string) {
    if s == "" then false
    else if AtEscape(s) then Unstable(s[3..])
    else UnstableHere(s) || Unstable(s[1..])
  }

  /** Nothing is left to unescape: every escape is valid and of a character that is not unreserved. */
  predicate Stable(s: string) {
    if s == "" then true
    else if AtEscape(s) then IsHex(s[1]) && IsHex(s[2]) && !IsUnreserved(Escaped(s[1], s[2])) && Stable(s[3..])
    else Stable(s[1..])
  }

  predicate AllSafe(s: string) { forall i :: 0 <= i < |s| ==> IsSafe(s[i]) || s[i] == '%' }

  lemma {:induction false} StableIsFixed(s: string)
    ensures Stable(s) ==> Unquote(s) == Some(s)
    ensures !Stable(s) && Unquote(s).Some? ==> |Unquote(s).value| < |s|
    ensures Unquote(s).Some? ==> |Unquote(s).value| <= |s|
  {
    hide IsAlnum, IsHex, IsUnreserved, Escaped;
    if s != "" {
      if AtEscape(s) {
        StableIsFixed(s[3..]);
        assert s[..3] + s[3..] == s;
      } else {
        StableIsFixed(s[1..]);
        assert s[..1] + s[1..] == s;
      }
    }
  }

  lemma {:induction false} UnquoteSafe(s: string)
    requires AllSafe(s) && Unquote(s).Some?
    ensures AllSafe(Unquote(s).value)
  {
    hide IsAlnum, IsHex, IsUnreserved, Escaped;
    assert forall c :: IsUnreserved(c) ==> IsSafe(c);
    if s != "" {
      if AtEscape(s) { UnquoteSafe(s[3..]); } else { UnquoteSafe(s[1..]); }
    }
  }

  lemma {:induction false} QuoteSafeText(s: string)
    requires IsAscii(s) && AllSafe(s)
    ensures Quote(s, true) == s
  {
    if s != "" {
      QuoteSafeText(s[1..]);
      assert s == [s[0]] + s[1..];
    }
  }

  lemma {:induction false} QuoteGrows(s: string)
    requires IsAscii(s)
    ensures |Quote(s, false)| >= |s|
    ensures '%' in s ==> |Quote(s, false)| > |s|
  {
    if s != "" {
      QuoteGrows(s[1..]);
      assert s == [s[0]] + s[1..];
    }
  }

  lemma {:induction false} InvalidHasPercent(s: string)
    requires Unquote(s).None?
    ensures '%' in s
  {
    if AtEscape(s) { assert s[0] == '%'; } else { InvalidHasPercent(s[1..]); }
  }

  /** A fully quoted text is a fixed point exactly when nothing is left to unescape in it. */
  lemma RequoteFixed(q: string)
    requires IsAscii(q) && AllSafe(q)
    ensures RequoteUri(q) == q <==> Stable(q)
  {
    UnquoteAscii(q);
    StableIsFixed(q);
    if Unquote(q).None? {
      InvalidHasPercent(q);
      QuoteGrows(q);
    } else {
      UnquoteSafe(q);
      QuoteSafeText(Unquote(q).value);
    }
  }

  lemma {:induction false} QuotedIsSafe(s: string, percentIsSafe: bool)
    requires IsAscii(s)
    ensures AllSafe(Quote(s, percentIsSafe)) && IsAscii(Quote(s, percentIsSafe))
  {
    if s != "" {
      QuotedIsSafe(s[1..], percentIsSafe);
      var q := QuoteChar(s[0], percentIsSafe);
      assert AllSafe(q) && IsAscii(q);
    }
  }

  lemma {:induction false} StableQuoted(s: string)
    requires IsAscii(s)
    ensures Stable(Quote(s, true)) <==> Stable(s)
  {
    if s != "" {
      QuoteKeepsEscapes(s);
      if AtEscape(s) {
        StableQuoted(s[3..]);
        var q := Quote(s, true);
        assert q[1] == s[1] && q[2] == s[2] && q[3..] == Quote(s[3..], true);
      } else {
        StableQuoted(s[1..]);
        QuotedCharStable(s[0], true, Quote(s[1..], true));
      }
    }
  }

  lemma QuotedCharStable(c: char, percentIsSafe: bool, rest: string)
    requires c as int < 128
    requires percentIsSafe && c == '%' ==> !AtEscape("%" + rest)
    ensures Stable(QuoteChar(c, percentIsSafe) + rest) <==> Stable(rest)
  {
    var q := QuoteChar(c, percentIsSafe) + rest;
    if IsSafe(c) || (percentIsSafe && c == '%') {
      assert q[0] == c && q[1..] == rest;
    } else {
      assert q[3..] == rest && AtEscape(q) && Escaped(q[1], q[2]) == c;
    }
  }

  lemma {:induction false} FallbackStable(s: string)
    requires IsAscii(s)
    ensures Stable(Quote(s, false))
  {
    if s != "" {
      FallbackStable(s[1..]);
      QuotedCharStable(s[0], false, Quote(s[1..], false));
    }
  }

  lemma {:induction false} StableUnquoted(s: string)
    requires Unquote(s).Some?
    ensures Stable(Unquote(s).value) <==> !Unstable(s)
  {
    HexIsAlnum();
    hide IsAlnum, IsHex, IsUnreserved, Escaped;
    if s != "" {
      var u := Unquote(s).value;
      if AtEscape(s) {
        var c, rest := Escaped(s[1], s[2]), Unquote(s[3..]).value;
        StableUnquoted(s[3..]);
        if IsUnreserved(c) {
          assert u[0] == c && u[1..] == rest;
        } else {
          assert u[0] == '%' && u[1] == s[1] && u[2] == s[2] && u[3..] == rest;
        }
      } else {
        var rest := Unquote(s[1..]).value;
        StableUnquoted(s[1..]);
        assert u[0] == s[0] && u[1..] == rest;
        UnquoteStartsTwo(s[1..]);
        if s[0] == '%' && TwoAlnum(rest).Some? {
          assert u[1] == rest[0] && u[2] == rest[1] && u[3..] == rest[2..];
          StableSkips(rest);
        }
      }
    }
  }

  lemma StableSkips(s: string)
    requires |s| >= 2 && IsAlnum(s[0]) && IsAlnum(s[1])
    ensures Stable(s) <==> Stable(s[2..])
  {
    assert s[1..][1..] == s[2..];
    assert Stable(s) <==> Stable(s[1..]);
  }

  /** Requoting twice is the same as requoting once exactly when no stray '%' comes to look like an escape. */
  lemma RequoteIdempotent(uri: string)
    requires IsAscii(uri)
    ensures IsAscii(RequoteUri(uri))
    ensures RequoteUri(RequoteUri(uri)) == RequoteUri(uri) <==> Unquote(uri).None? || !Unstable(uri)
  {
    UnquoteAscii(uri);
    var percentIsSafe, text := Unquote(uri).Some?, if Unquote(uri).Some? then Unquote(uri).value else uri;
    QuotedIsSafe(text, percentIsSafe);
    RequoteFixed(RequoteUri(uri));
    if Unquote(uri).None? {
      FallbackStable(uri);
    } else {
      StableQuoted(text);
      StableUnquoted(uri);
    }
  }

  // ----- well-formed URIs -----

  lemma {:induction false} WellFormedIsSimple(s: string)
    requires WellFormed(s)
    ensures Unquote(s).Some? && Fusions(s) == 0 && !Unstable(s)
  {
    HexIsAlnum();
    hide IsAlnum, IsHex, IsUnreserved, Escaped;
    if s != "" {
      if s[0] == '%' {
        assert AtEscape(s) && WellFormed(s[3..]);
        WellFormedIsSimple(s[3..]);
      } else {
        assert WellFormed(s[1..]);
        WellFormedIsSimple(s[1..]);
      }
    }
  }

  /**
    Sections 2.3 and 6.2.2.2 of RFC 3986: a well-formed URI keeps its meaning, its normal form is a
    fixed point, and no escape of an unreserved character is left in it.
  */
  lemma RequoteWellFormed(uri: string)
    requires IsAscii(uri) && WellFormed(uri)
    ensures IsAscii(RequoteUri(uri))
    ensures Decode(RequoteUri(uri)) == Decode(uri)
    ensures RequoteUri(RequoteUri(uri)) == RequoteUri(uri)
    ensures var q := RequoteUri(uri);
            forall i :: 0 <= i < |q| && AtHexEscape(q[i..]) ==> !IsUnreserved(Escaped(q[i + 1], q[i + 2]))
  {
    WellFormedIsSimple(uri);
    RequoteKeepsMeaning(uri);
    RequoteIdempotent(uri);
    UnquoteAscii(uri);
    StableUnquoted(uri);
    StableQuoted(Unquote(uri).value);
    var q := RequoteUri(uri);
    forall i | 0 <= i < |q| && AtHexEscape(q[i..]) ensures !IsUnreserved(Escaped(q[i + 1], q[i + 2])) {
      StableEverywhere(q, i);
    }
  }

  lemma {:induction false} StableEverywhere(s: string, i: nat)
    requires Stable(s) && i < |s| && AtHexEscape(s[i..])
    ensures !IsUnreserved(Escaped(s[i + 1], s[i + 2]))
  {
    HexIsAlnum();
    hide IsAlnum, IsHex, IsUnreserved, Escaped;
    assert s[i..][0] == s[i] && s[i..][1] == s[i + 1] && s[i..][2] == s[i + 2];
    if AtEscape(s) {
      if i >= 3 {
        assert s[3..][i - 3..] == s[i..];
        StableEverywhere(s[3..], i - 3);
      }
    } else {
      assert i > 0 && s[1..][i - 1..] == s[i..];
      StableEverywhere(s[1..], i - 1);
    }
  }

  /** Well-formedness is needed: "%%341" becomes "%41", which means something else and is not stable. */
  lemma IllFormedCounterexample()
    ensures Decode(RequoteUri("%%341")) != Decode("%%341")
    ensures IsAscii(RequoteUri("%%341")) && RequoteUri(RequoteUri("%%341")) != RequoteUri("%%341")
  {
    var s, t := "%%341", "%341";
    assert s[1..] == t && t[3..] == "1" && Escaped('3', '4') == '4' && Escaped('4', '1') == 'A';
    assert TwoUnits(t) == Some(('4', '1'));
    assert FusesHere(s) && UnstableHere(s);
    assert Unquote("1").Some? && Unquote(t).Some? && Unquote(s).Some?;
    RequoteKeepsMeaning(s);
    RequoteIdempotent(s);
  }

  /** The fallback does not keep the meaning of valid escapes: "%zz%41" comes to mean its own text instead of "%zzA". */
  lemma FallbackCounterexample()
    ensures Unquote("%zz%41").None? && HasEscape("%zz%41")
    ensures Decode(RequoteUri("%zz%41")) == Codes("%zz%41") != Decode("%zz%41")
  {
    var s, t := "%zz%41", "%41";
    assert AtEscape(s) && !IsHex(s[1]);
    assert s[1..][1..][1..] == t && AtHexEscape(t);
    assert HasEscape(t) && HasEscape(s[1..][1..]) && HasEscape(s[1..]);
    RequoteKeepsMeaning(s);
  }

  // ----- written out -----

  /** Letters, digits and the marks of section 2.3 of RFC 3986. */
  predicate Unreserved(c: char) { 'A' <= c <= 'Z' || 'a' <= c <= 'z' || '0' <= c <= '9' || c in "-._~" }

  /** A text of unreserved characters and of the reserved ones the source lists is its own normal form. */
  lemma PlainUntouched(uri: string)
    requires forall i :: 0 <= i < |uri| ==> Unreserved(uri[i]) || uri[i] in "!#$&'()*+,/:;=?@[]"
    ensures IsAscii(uri) && RequoteUri(uri) == uri
  {
    forall i | 0 <= i < |uri| ensures uri[i] as int < 128 && uri[i] != '%' && IsSafe(uri[i]) { PlainIsSafe(uri[i]); }
    hide Unreserved, IsSafe;
    NothingToUnescape(uri);
    StableIsFixed(uri);
    assert AllSafe(uri);
    QuoteSafeText(uri);
    UnquoteAscii(uri);
  }

  lemma PlainIsSafe(c: char)
    requires Unreserved(c) || c in "!#$&'()*+,/:;=?@[]"
    ensures c as int < 128 && c != '%' && IsSafe(c)
  {
  }

  lemma {:induction false} NothingToUnescape(s: string)
    requires forall i :: 0 <= i < |s| ==> s[i] != '%'
    ensures Stable(s)
  {
    if s != "" { NothingToUnescape(s[1..]); }
  }

  /** Any other ASCII character, '%' aside, is escaped with two upper-case digits. */
  lemma OtherEscaped(c: char)
    requires c as int < 128 && c != '%' && !Unreserved(c) && c !in "!#$&'()*+,/:;=?@[]"
    ensures var digits := "0123456789ABCDEF";
            RequoteUri([c]) == ['%', digits[c as int / 16], digits[c as int % 16]]
  {
    NothingToUnescape([c]);
    StableIsFixed([c]);
    assert Quote([c], true) == QuoteChar(c, true) + Quote("", true);
    HexMeaning(c as int / 16);
    HexMeaning(c as int % 16);
  }

  /** An escape is opened exactly when it is of an unreserved character, whatever follows it. */
  lemma EscapeWritten(high: char, low: char, i: nat, j: nat, rest: string)
    requires i < 16 && (high == "0123456789abcdef"[i] || high == "0123456789ABCDEF"[i])
    requires j < 16 && (low == "0123456789abcdef"[j] || low == "0123456789ABCDEF"[j])
    ensures var c := (16 * i + j) as char;
            Unquote(['%', high, low] + rest) ==
            if Unquote(rest).None? then None
            else if Unreserved(c) then Some([c] + Unquote(rest).value)
            else Some(['%', high, low] + Unquote(rest).value)
  {
    hide IsHex, IsAlnum, IsUnreserved, Unreserved, Escaped;
    EscapePair(high, low, i, j);
    var s := ['%', high, low] + rest;
    assert s[3..] == rest && s[..3] == ['%', high, low];
  }

  lemma EscapePair(high: char, low: char, i: nat, j: nat)
    requires i < 16 && (high == "0123456789abcdef"[i] || high == "0123456789ABCDEF"[i])
    requires j < 16 && (low == "0123456789abcdef"[j] || low == "0123456789ABCDEF"[j])
    ensures IsHex(high) && IsHex(low) && IsAlnum(high) && IsAlnum(low)
    ensures var c := (16 * i + j) as char; Escaped(high, low) == c && (IsUnreserved(c) <==> Unreserved(c))
  {
    HexMeaning(i);
    HexMeaning(j);
    HexIsAlnum();
    hide IsHex, HexValue;
  }

  /** A '%' with two alphanumeric characters behind it that are not both hexadecimal. */
  ghost predicate InvalidAt(s: string, i: int) {
    && 0 <= i && i + 2 < |s| && s[i] == '%' && IsAlnum(s[i + 1]) && IsAlnum(s[i + 2])
    && !(IsHex(s[i + 1]) && IsHex(s[i + 2]))
  }

  lemma InvalidTail(s: string, k: nat, i: nat)
    requires k <= |s|
    ensures InvalidAt(s[k..], i) <==> InvalidAt(s, k + i)
  {
  }

  /** InvalidURL is raised exactly when there is such a place. */
  lemma {:induction false} InvalidIff(s: string)
    ensures Unquote(s).None? <==> exists i :: InvalidAt(s, i)
  {
    HexIsAlnum();
    hide IsAlnum, IsHex, IsUnreserved, Escaped;
    if s != "" {
      var k := if AtEscape(s) then 3 else 1;
      InvalidIff(s[k..]);
      if exists i :: InvalidAt(s[k..], i) {
        var i :| InvalidAt(s[k..], i);
        InvalidTail(s, k, i);
        assert InvalidAt(s, k + i);
      }
      if AtEscape(s) && !(IsHex(s[1]) && IsHex(s[2])) { assert InvalidAt(s, 0); }
      if exists i :: InvalidAt(s, i) {
        var i :| InvalidAt(s, i);
        if i >= k { InvalidTail(s, k, i - k); }
      }
    }
  }
}
