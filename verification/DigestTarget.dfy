/**
  The request target that Digest authentication signs: what `urlparse` makes of a URL, and the lexical
  computation of the native code, which answers only when a strict URL parser agrees with it.
*/
module DigestTarget {
  import opened Prelude

  // ----- searching -----

  /** The index of the first of `chars` in `s`, or its length. */
  function Find(s: string, chars: string): (i: nat)
    ensures i <= |s| && (i < |s| ==> s[i] in chars)
    ensures forall k :: 0 <= k < i ==> s[k] !in chars
  {
    if s == "" || s[0] in chars then 0 else 1 + Find(s[1..], chars)
  }

  function Before(s: string, chars: string): string { s[..Find(s, chars)] }

  /** What follows the first of `chars`, if there is one. */
  function Behind(s: string, chars: string): Option<string> {
    if Find(s, chars) < |s| then Some(s[Find(s, chars) + 1..]) else None
  }

  /** The index after the last '/', or 0. */
  function AfterSlash(s: string): (i: nat)
    ensures i <= |s| && (i > 0 ==> s[i - 1] == '/')
    ensures forall k :: i <= k < |s| ==> s[k] != '/'
  {
    if s == "" then 0 else if s[|s| - 1] == '/' then |s| else AfterSlash(s[..|s| - 1])
  }

  lemma FindUnique(s: string, chars: string, i: nat)
    requires i <= |s| && (i < |s| ==> s[i] in chars) && forall k :: 0 <= k < i ==> s[k] !in chars
    ensures Find(s, chars) == i
  {
  }

  lemma FindAppend(a: string, b: string, chars: string)
    requires forall k :: 0 <= k < |a| ==> a[k] !in chars
    ensures Find(a + b, chars) == |a| + Find(b, chars)
  {
    FindUnique(a + b, chars, |a| + Find(b, chars));
  }

  // ----- urlparse -----

  predicate IsBreak(c: char) { c == '\t' || c == '\r' || c == '\n' }

  function Clean(s: string): string {
    if s == "" then "" else if IsBreak(s[0]) then Clean(s[1..]) else [s[0]] + Clean(s[1..])
  }

  /** Leading control characters and blanks go first. */
  function StripLeft(s: string): string {
    if s != "" && s[0] <= ' ' then StripLeft(s[1..]) else s
  }

  predicate IsSchemeChar(c: char) { IsLetter(c) || IsDigit(c) || c in "+-." }

  /** The scheme in lower case and what follows it; without a valid scheme, everything. */
  function SplitScheme(url: string): (string, string) {
    var i := Find(url, ":");
    if 0 < i < |url| && IsLetter(url[0]) && forall k :: 0 <= k < i ==> IsSchemeChar(url[k])
    then (Lower(url[..i]), url[i + 1..]) else ("", url)
  }

  function DropNetloc(rest: string): string {
    if "//" <= rest then rest[2 + Find(rest[2..], "/?#")..] else rest
  }

  const USES_PARAMS := {"", "ftp", "hdl", "prospero", "http", "https", "shttp", "rtsp", "rtsps", "sip", "sips", "mms",
    "sftp", "tel"}

  /** `_splitparams`: the search for ';' starts at the last '/'. */
  function DropParams(path: string): string {
    var from := if AfterSlash(path) > 0 then AfterSlash(path) - 1 else 0;
    path[..from + Find(path[from..], ";")]
  }

  /** What follows the '?', or nothing. */
  function QueryOf(text: string): string {
    if Behind(text, "?").Some? then Behind(text, "?").value else ""
  }

  function Assemble(path: string, query: string): string {
    (if path == "" then "/" else path) + if query == "" then "" else "?" + query
  }

  /** `urlparse(url).path or "/"`, with the query if there is one. */
  function PythonTarget(url: string): string {
    var (scheme, rest) := SplitScheme(Clean(StripLeft(url)));
    var text := Before(DropNetloc(rest), "#");
    var path := Before(text, "?");
    Assemble(if scheme in USES_PARAMS then DropParams(path) else path, QueryOf(text))
  }

  // ----- digest_request_target -----

  /** What the strict URL parser reports. */
  datatype Parsed = Parsed(scheme: string, hasHost: bool, path: string, query: Option<string>)

  type UrlParser = string -> Option<Parsed>

  predicate NoBreaks(s: string) { forall i :: 0 <= i < |s| ==> !IsBreak(s[i]) }

  /** The strict parser reports no raw line breaks or tabs. */
  ghost predicate Strict(parse: UrlParser) {
    forall url :: parse(url).Some? ==>
      NoBreaks(parse(url).value.path) && (parse(url).value.query.Some? ==> NoBreaks(parse(url).value.query.value))
  }

  function Remainder(url: string): Option<string> {
    if "http://" <= url then Some(url[7..]) else if "https://" <= url then Some(url[8..]) else None
  }

  function LexicalTarget(suffix: string): string {
    if suffix == "" then "/" else if suffix[0] == '?' then "/" + suffix else suffix
  }

  function ParsedTarget(p: Parsed): string {
    (if p.path == "" then "/" else p.path) + if p.query.Some? then "?" + p.query.value else ""
  }

  /** The path up to the first ';' of its last segment. */
  function NativeCut(path: string): string {
    var segment := path[AfterSlash(path)..];
    if Find(segment, ";") < |segment| then path[..|path| - |segment| + Find(segment, ";")] else path
  }

  function NativeTarget(parse: UrlParser, url: string): Option<string> {
    var remainder := Remainder(url);
    if remainder.None? then None
    else
      var boundary := Find(remainder.value, "/?#");
      if boundary == 0 then None
      else
        var target := LexicalTarget(Before(remainder.value[boundary..], "#"));
        var parsed := parse(url);
        if parsed.None? || parsed.value.scheme !in {"http", "https"} || !parsed.value.hasHost then None
        else if ParsedTarget(parsed.value) != target then None
        else
          var path := if Before(target, "?") == "" then "/" else Before(target, "?");
          var cut := NativeCut(path);
          var query := Behind(target, "?");
          if query.None? || query.value == "" then Some(cut) else Some(cut + "?" + query.value)
  }

  // ----- agreement -----

  lemma {:induction false} CleanKeeps(s: string)
    requires NoBreaks(s)
    ensures Clean(s) == s
  {
    if s != "" {
      assert NoBreaks(s[1..]);
      CleanKeeps(s[1..]);
    }
  }

  lemma {:induction false} CleanAppend(a: string, b: string)
    ensures Clean(a + b) == Clean(a) + Clean(b)
  {
    if a == "" {
      assert a + b == b;
    } else {
      hide IsBreak;
      CleanAppend(a[1..], b);
      assert (a + b)[0] == a[0] && (a + b)[1..] == a[1..] + b;
      Regroup([a[0]], Clean(a[1..]), Clean(b));
    }
  }

  lemma {:induction false} CleanLacks(s: string, chars: string)
    requires forall k :: 0 <= k < |s| ==> s[k] !in chars
    ensures forall k :: 0 <= k < |Clean(s)| ==> Clean(s)[k] !in chars
  {
    if s != "" { CleanLacks(s[1..], chars); }
  }

  /** Removing breaks does not move a delimiter across the text before it. */
  lemma CleanSplits(a: string, b: string)
    requires forall k :: 0 <= k < |a| ==> a[k] !in "/?#"
    requires b != "" ==> b[0] in "/?#"
    ensures Find(Clean(a + b), "/?#") == |Clean(a)| && Clean(a + b)[|Clean(a)|..] == Clean(b)
  {
    CleanAppend(a, b);
    CleanLacks(a, "/?#");
    FindAppend(Clean(a), Clean(b), "/?#");
  }

  lemma SchemeOfHttp(scheme: string, rest: string)
    requires scheme == "http" || scheme == "https"
    ensures var url := scheme + ":" + rest; StripLeft(url) == url && SplitScheme(url) == (scheme, rest)
  {
    var url := scheme + ":" + rest;
    FindUnique(url, ":", |scheme|);
    assert url[..|scheme|] == scheme;
    assert Lower(scheme) == scheme;
  }

  /** The text between authority and fragment, as `urlsplit` sees it. */
  lemma PythonText(scheme: string, authority: string, suffix: string)
    requires scheme == "http" || scheme == "https"
    requires forall k :: 0 <= k < |authority| ==> authority[k] !in "/?#"
    requires suffix != "" ==> suffix[0] in "/?#"
    ensures var url := scheme + "://" + authority + suffix;
            var split := SplitScheme(Clean(StripLeft(url)));
            split.0 == scheme && DropNetloc(split.1) == Clean(suffix)
  {
    hide SplitScheme, StripLeft, Find, Clean, DropNetloc;
    var url := scheme + "://" + authority + suffix;
    var front, back := scheme + "://", authority + suffix;
    var cleaned := Clean(back);
    assert url == front + back && url == scheme + ":" + ("//" + back)
      && front + cleaned == scheme + ":" + ("//" + cleaned);
    SchemeOfHttp(scheme, "//" + back);
    CleanAppend(front, back);
    CleanKeeps(front);
    SchemeOfHttp(scheme, "//" + cleaned);
    CleanSplits(authority, suffix);
    NetlocDropped(cleaned);
  }

  lemma NetlocDropped(s: string)
    ensures DropNetloc("//" + s) == s[Find(s, "/?#")..]
  {
    var rest := "//" + s;
    assert rest[2..] == s;
  }

  /** Cutting at the first '#' commutes with removing breaks after it. */
  lemma CleanFragment(suffix: string)
    requires NoBreaks(Before(suffix, "#"))
    ensures Before(Clean(suffix), "#") == Before(suffix, "#")
  {
    var text := Before(suffix, "#");
    var tail := suffix[|text|..];
    assert suffix == text + tail;
    CleanAppend(text, tail);
    CleanKeeps(text);
    FindAppend(text, Clean(tail), "#");
    assert tail != "" ==> tail[0] == '#';
  }

  /** A path that starts with '/' is cut at the same place by both. */
  lemma SameCut(path: string)
    requires path != "" && path[0] == '/'
    ensures DropParams(path) == NativeCut(path)
  {
    hide Find, AfterSlash;
    var n := AfterSlash(path);
    var segment := path[n..];
    assert n > 0;
    assert path[n - 1..] == "/" + segment;
    FindAppend("/", segment, ";");
    if Find(segment, ";") == |segment| { assert path[..|path|] == path; }
  }

  lemma TargetOfText(text: string)
    requires text == "" || text[0] == '/' || text[0] == '?'
    ensures var target := LexicalTarget(text);
            && Behind(target, "?") == Behind(text, "?")
            && Before(target, "?") != "" && Before(target, "?")[0] == '/'
            && (Before(text, "?") == "" ==> Before(target, "?") == "/")
            && (Before(text, "?") != "" ==> Before(target, "?") == Before(text, "?"))
  {
    if text == "" {
      FindUnique("/", "?", 1);
    } else if text[0] == '?' {
      FindAppend("/", text, "?");
      assert ("/" + text)[..1] == "/" && ("/" + text)[2..] == text[1..];
    }
  }

  lemma PrefixSplit(prefix: string, url: string)
    requires prefix <= url
    ensures url == prefix + url[|prefix|..]
  {
  }

  lemma UrlParts(url: string) returns (scheme: string, authority: string, suffix: string)
    requires Remainder(url).Some?
    ensures scheme == "http" || scheme == "https"
    ensures url == scheme + "://" + authority + suffix
    ensures authority == Before(Remainder(url).value, "/?#") && suffix == Remainder(url).value[|authority|..]
  {
    hide Find;
    var rest := Remainder(url).value;
    authority := Before(rest, "/?#");
    suffix := rest[|authority|..];
    PrefixSplit(authority, rest);
    if "http://" <= url {
      scheme := "http";
      PrefixSplit("http://", url);
    } else {
      scheme := "https";
      PrefixSplit("https://", url);
    }
    Regroup(scheme + "://", authority, suffix);
  }

  lemma ParsedHasNoBreaks(parse: UrlParser, url: string)
    requires Strict(parse) && parse(url).Some?
    ensures NoBreaks(ParsedTarget(parse(url).value))
  {
  }

  lemma LexicalHasText(text: string)
    requires NoBreaks(LexicalTarget(text))
    ensures NoBreaks(text)
  {
    if text != "" && text[0] == '?' {
      forall i | 0 <= i < |text| ensures !IsBreak(text[i]) { assert ("/" + text)[i + 1] == text[i]; }
    }
  }

  lemma PythonTargetIs(url: string, scheme: string, authority: string, suffix: string)
    requires scheme == "http" || scheme == "https"
    requires url == scheme + "://" + authority + suffix
    requires forall k :: 0 <= k < |authority| ==> authority[k] !in "/?#"
    requires suffix != "" ==> suffix[0] in "/?#"
    requires NoBreaks(Before(suffix, "#"))
    ensures var text := Before(suffix, "#");
            PythonTarget(url) == Assemble(DropParams(Before(text, "?")), QueryOf(text))
  {
    hide SplitScheme, StripLeft, Find, Clean, DropNetloc, Before, Behind, DropParams, Assemble, NoBreaks;
    PythonText(scheme, authority, suffix);
    CleanFragment(suffix);
    assert scheme in USES_PARAMS;
  }

  lemma NativeTargetIs(parse: UrlParser, url: string)
    requires Strict(parse) && NativeTarget(parse, url).Some?
    ensures Remainder(url).Some?
    ensures var rest := Remainder(url).value;
            var text := Before(rest[Find(rest, "/?#")..], "#");
            var target := LexicalTarget(text);
            && NoBreaks(text)
            && (Before(target, "?") != "" ==>
                  NativeTarget(parse, url).value ==
                  NativeCut(Before(target, "?")) + if QueryOf(target) == "" then "" else "?" + QueryOf(target))
  {
    hide Find, AfterSlash, Strict, Before, NoBreaks, LexicalTarget, ParsedTarget;
    ParsedHasNoBreaks(parse, url);
    var rest := Remainder(url).value;
    var text := Before(rest[Find(rest, "/?#")..], "#");
    LexicalHasText(text);
    var target := LexicalTarget(text);
    if Before(target, "?") != "" {
      var cut, query := NativeCut(Before(target, "?")), QueryOf(target);
      assert cut + ("?" + query) == cut + "?" + query && cut + "" == cut;
    }
  }

  /** Whatever target the native code accepts is the one Python would sign. */
  lemma TargetsAgree(parse: UrlParser, url: string)
    requires Strict(parse) && NativeTarget(parse, url).Some?
    ensures NativeTarget(parse, url).value == PythonTarget(url)
  {
    hide Find, AfterSlash, Strict, NativeTarget, PythonTarget, LexicalTarget, DropParams, NoBreaks;
    NativeTargetIs(parse, url);
    var scheme, authority, suffix := UrlParts(url);
    PythonTargetIs(url, scheme, authority, suffix);
    var text := Before(suffix, "#");
    assert text != "" ==> text[0] == suffix[0] && text[0] !in "#";
    TargetOfText(text);
    hide Before, Behind;
    var path := Before(LexicalTarget(text), "?");
    SameCut(path);
    CutNotEmpty(path);
    EmptyPath();
  }

  lemma CutNotEmpty(path: string)
    requires path != "" && path[0] == '/'
    ensures NativeCut(path) != ""
  {
    hide Find, AfterSlash;
    assert AfterSlash(path) > 0;
  }

  /** Python cuts an empty path to nothing and then writes "/", where the native code starts from "/". */
  lemma EmptyPath()
    ensures DropParams("") == "" && DropParams("/") == "/"
  {
    SameCut("/");
  }

  /** What `urlparse` takes for the parameters of a path: from the first ';' of its last segment on. */
  lemma ParamsWritten(front: string, segment: string, params: string)
    requires front != "" && front[|front| - 1] == '/'
    requires (forall k :: 0 <= k < |segment| ==> segment[k] != '/' && segment[k] != ';')
    requires params == "" || (params[0] == ';' && forall k :: 0 <= k < |params| ==> params[k] != '/')
    ensures DropParams(front + segment + params) == front + segment
  {
    var path, n := front + segment + params, |front|;
    AfterSlashIs(path, n);
    var from := n - 1;
    assert path[from..] == ("/" + segment) + params;
    FindUnique(path[from..], ";", 1 + |segment|);
    assert path[..from + 1 + |segment|] == front + segment;
  }

  lemma {:induction false} AfterSlashIs(s: string, n: nat)
    requires n <= |s| && (n > 0 ==> s[n - 1] == '/') && forall k :: n <= k < |s| ==> s[k] != '/'
    ensures AfterSlash(s) == n
  {
    if n < |s| { AfterSlashIs(s[..|s| - 1], n); }
  }

  /**
    The target of a URL in parts: path without parameters, '?' and query, whatever the authority and the fragment are.
    An empty path stands for "/", and an empty query is left out.
  */
  lemma PythonTargetWritten(scheme: string, authority: string, path: string, query: Option<string>, fragment: string)
    requires scheme == "http" || scheme == "https"
    requires forall k :: 0 <= k < |authority| ==> authority[k] !in "/?#"
    requires (path != "" ==> path[0] == '/') && forall k :: 0 <= k < |path| ==> path[k] !in "?#\t\r\n"
    requires query.Some? ==> forall k :: 0 <= k < |query.value| ==> query.value[k] !in "#\t\r\n"
    requires fragment == "" || fragment[0] == '#'
    ensures var asked := if query.Some? then "?" + query.value else "";
            var url := scheme + "://" + authority + (path + asked + fragment);
            PythonTarget(url) ==
            (if DropParams(path) == "" then "/" else DropParams(path))
            + if query.None? || query.value == "" then "" else "?" + query.value
  {
    hide Find, PythonTarget, DropParams, Before, Behind, QueryOf;
    var text := path + if query.Some? then "?" + query.value else "";
    TextBefore(text, fragment);
    PythonTargetIs(scheme + "://" + authority + (text + fragment), scheme, authority, text + fragment);
    PathAndQuery(path, query);
  }

  /** A scheme and what follows the colon. */
  lemma AnyScheme(scheme: string, rest: string)
    requires scheme != "" && IsLetter(scheme[0]) && forall k :: 0 <= k < |scheme| ==> IsSchemeChar(scheme[k])
    ensures var url := scheme + ":" + rest; StripLeft(url) == url && SplitScheme(url) == (Lower(scheme), rest)
  {
    hide Find;
    var url := scheme + ":" + rest;
    FindUnique(url, ":", |scheme|);
    assert url[..|scheme|] == scheme && url[|scheme| + 1..] == rest && url[0] == scheme[0];
    assert forall k :: 0 <= k < |scheme| ==> url[k] == scheme[k];
  }

  /** Any scheme, in lower case, decides whether a path has parameters that are left out. */
  lemma OtherSchemeWritten(scheme: string, authority: string, path: string)
    requires scheme != "" && IsLetter(scheme[0]) && forall k :: 0 <= k < |scheme| ==> IsSchemeChar(scheme[k])
    requires forall k :: 0 <= k < |authority| ==> authority[k] !in "/?#\t\r\n"
    requires path != "" && path[0] == '/' && forall k :: 0 <= k < |path| ==> path[k] !in "?#\t\r\n"
    ensures PythonTarget(scheme + ":" + ("//" + (authority + path))) ==
            if Lower(scheme) !in USES_PARAMS then path else if DropParams(path) == "" then "/" else DropParams(path)
  {
    hide Find, SplitScheme, StripLeft, DropNetloc, Clean, DropParams, Before, Behind, Lower, IsSchemeChar;
    var back := authority + path;
    var url := scheme + ":" + ("//" + back);
    AnyScheme(scheme, "//" + back);
    assert NoBreaks(url) by { SchemeNoBreaks(scheme); }
    CleanKeeps(url);
    NetlocDropped(back);
    FindUnique(back, "/?#", |authority|);
    assert back[|authority|..] == path;
    PlainPath(path);
  }

  lemma SchemeNoBreaks(scheme: string)
    requires forall k :: 0 <= k < |scheme| ==> IsSchemeChar(scheme[k])
    ensures NoBreaks(scheme)
  {
  }

  lemma PlainPath(path: string)
    requires forall k :: 0 <= k < |path| ==> path[k] !in "?#"
    ensures Before(path, "#") == path && Before(path, "?") == path && QueryOf(path) == ""
    ensures path != "" ==> Assemble(path, "") == path
  {
    hide Find;
    FindUnique(path, "#", |path|);
    FindUnique(path, "?", |path|);
    assert path[..|path|] == path && path + "" == path;
  }

  lemma TextBefore(text: string, fragment: string)
    requires (forall k :: 0 <= k < |text| ==> text[k] != '#') && (fragment == "" || fragment[0] == '#')
    ensures Before(text + fragment, "#") == text
  {
    hide Find;
    FindUnique(text + fragment, "#", |text|);
  }

  lemma PathAndQuery(path: string, query: Option<string>)
    requires forall k :: 0 <= k < |path| ==> path[k] != '?'
    ensures var text := path + if query.Some? then "?" + query.value else "";
            Before(text, "?") == path && QueryOf(text) == if query.Some? then query.value else ""
  {
    hide Find;
    var text := path + if query.Some? then "?" + query.value else "";
    FindUnique(text, "?", |path|);
    assert text[..|path|] == path;
    if query.Some? { assert text[|path| + 1..] == query.value; }
  }

  /** A URL without query, fragment and parameters is accepted as soon as the strict parser reports its path. */
  lemma PlainAccepted(parse: UrlParser, host: string, path: string)
    requires host != "" && (forall k :: 0 <= k < |host| ==> host[k] !in "/?#")
    requires path != "" && path[0] == '/' && (forall k :: 0 <= k < |path| ==> path[k] !in "?#;")
    requires parse("http://" + host + path) == Some(Parsed("http", true, path, None))
    ensures NativeTarget(parse, "http://" + host + path) == Some(path)
  {
    hide Find, AfterSlash;
    var url, rest := "http://" + host + path, host + path;
    Regroup("http://", host, path);
    assert url[7..] == rest;
    FindUnique(rest, "/?#", |host|);
    assert rest[|host|..] == path;
    FindUnique(path, "#", |path|);
    FindUnique(path, "?", |path|);
    assert path[..|path|] == path && path + "" == path;
    var segment := path[AfterSlash(path)..];
    FindUnique(segment, ";", |segment|);
  }
}
