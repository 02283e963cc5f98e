/** Definitions shared by the models of the individual components. */
module Prelude {

  datatype Option<+T> = None | Some(value: T)

  datatype Result<+T, +E> = Ok(value: T) | Err(error: E)

  /** The pieces between separators: one more than there are separators. */
  function Split(s: string, separator: char): (parts: seq<string>)
    ensures parts != []
  {
    if s == "" then [""]
    else
      var rest := Split(s[1..], separator);
      if s[0] == separator then [""] + rest else [[s[0]] + rest[0]] + rest[1..]
  }

  /** The parts with the separator between them. */
  function Interleave(parts: seq<string>, separator: char): string {
    if parts == [] then ""
    else if |parts| == 1 then parts[0]
    else parts[0] + [separator] + Interleave(parts[1..], separator)
  }

  /** Splitting is exact: the parts hold no separator and give the text back. */
  lemma {:induction false} SplitMeaning(s: string, separator: char)
    ensures var parts := Split(s, separator);
            Interleave(parts, separator) == s && forall i :: 0 <= i < |parts| ==> separator !in parts[i]
  {
    hide Interleave;
    if s == "" {
      OnePart("", separator);
    } else {
      SplitMeaning(s[1..], separator);
      var rest := Split(s[1..], separator);
      assert s == [s[0]] + s[1..];
      if s[0] == separator { NewPart(rest, separator); } else { LongerPart(s[0], rest, separator); }
    }
  }

  lemma OnePart(part: string, separator: char)
    ensures Interleave([part], separator) == part
  {
  }

  lemma NewPart(rest: seq<string>, separator: char)
    requires rest != []
    ensures Interleave([""] + rest, separator) == [separator] + Interleave(rest, separator)
  {
    assert ([""] + rest)[1..] == rest;
  }

  lemma LongerPart(c: char, rest: seq<string>, separator: char)
    requires rest != []
    ensures Interleave([[c] + rest[0]] + rest[1..], separator) == [c] + Interleave(rest, separator)
  {
    assert ([[c] + rest[0]] + rest[1..])[1..] == rest[1..];
  }

  /** ASCII lower case. */
  function LowerChar(c: char): char {
    if 'A' <= c <= 'Z' then (c as int + 32) as char else c
  }

  function Lower(s: string): (r: string)
    ensures |r| == |s|
  {
    seq(|s|, i requires 0 <= i < |s| => LowerChar(s[i]))
  }

  predicate IsDigit(c: char) { '0' <= c <= '9' }
  predicate IsLetter(c: char) { 'a' <= c <= 'z' || 'A' <= c <= 'Z' }
  predicate IsHex(c: char) { IsDigit(c) || 'a' <= c <= 'f' || 'A' <= c <= 'F' }

  function HexValue(c: char): (n: int)
    requires IsHex(c)
    ensures 0 <= n < 16
  {
    if IsDigit(c) then c as int - '0' as int
    else if 'a' <= c <= 'f' then c as int - 'a' as int + 10
    else c as int - 'A' as int + 10
  }

  /** The digit for `n`, where `ten` is 'a' or 'A'. */
  function HexDigit(n: int, ten: char): (c: char)
    requires 0 <= n < 16 && (ten == 'a' || ten == 'A')
    ensures IsHex(c) && HexValue(c) == n
  {
    if n < 10 then ('0' as int + n) as char else (ten as int + n - 10) as char
  }

  /** The hexadecimal digits by name. */
  lemma HexMeaning(i: nat)
    requires i < 16
    ensures var lower, upper := "0123456789abcdef"[i], "0123456789ABCDEF"[i];
            && IsHex(lower) && HexValue(lower) == i && HexDigit(i, 'a') == lower
            && IsHex(upper) && HexValue(upper) == i && HexDigit(i, 'A') == upper
  {
  }

  type Bytes = seq<int>

  const U64: nat := 0x1_0000_0000_0000_0000

  function Min(a: int, b: int): int { if a < b then a else b }

  ghost predicate NoRepeats<T>(s: seq<T>) { forall i, j :: 0 <= i < j < |s| ==> s[i] != s[j] }

  lemma Regroup<T>(a: seq<T>, b: seq<T>, c: seq<T>)
    ensures (a + b) + c == a + (b + c)
  {
  }

  function Join<T>(parts: seq<seq<T>>): seq<T> {
    if parts == [] then [] else parts[0] + Join(parts[1..])
  }

  lemma {:induction false} JoinAppend<T>(parts: seq<seq<T>>, part: seq<T>)
    ensures Join(parts + [part]) == Join(parts) + part
  {
    if parts == [] {
      assert part + [] == part;
    } else {
      JoinAppend(parts[1..], part);
      assert (parts + [part])[1..] == parts[1..] + [part];
      Regroup(parts[0], Join(parts[1..]), part);
    }
  }
}
