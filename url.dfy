/**
 * `urllib.parse.urlparse` as `parse_http_request` uses it: only the path and
 * the query of the request target are kept. The steps follow CPython 3.12's
 * `urlsplit` and `urlparse`:
 * - leading C0 controls and spaces are stripped;
 * - a scheme ending at the first ':' is split off;
 * - an authority after "//" is split off, and ValueError is raised when it
 *   holds one kind of square bracket without the other;
 * - the fragment is cut at the first '#' and the query starts after the first '?';
 * - for the schemes that use parameters, the last path segment loses
 *   everything from its first ';'.
 * Nothing is percent-decoded.
 */
module Url {
  import opened Wrappers
  import opened Text

  datatype Target = Target(path: string, query: string)

  /** `_WHATWG_C0_CONTROL_OR_SPACE`: U+0000 to U+0020. */
  predicate IsC0OrSpace(c: char) { c <= ' ' }

  /** `url.lstrip(_WHATWG_C0_CONTROL_OR_SPACE)`. */
  function StripLeading(s: string): (r: string)
    ensures |r| <= |s| && r == s[|s| - |r|..]
    ensures r == [] || !IsC0OrSpace(r[0])
    ensures forall j :: 0 <= j < |s| - |r| ==> IsC0OrSpace(s[j])
    decreases |s|
  {
    if s != [] && IsC0OrSpace(s[0]) then
      var r := StripLeading(s[1..]);
      assert s[1..][|s| - 1 - |r|..] == s[|s| - |r|..];
      assert forall j :: 1 <= j < |s| ==> s[j] == s[1..][j - 1];
      r
    else s
  }

  predicate IsAsciiLetter(c: char) { 'a' <= c <= 'z' || 'A' <= c <= 'Z' }

  /** `scheme_chars`: ASCII letters and digits, '+', '-' and '.'. */
  predicate IsSchemeChar(c: char) { IsAsciiLetter(c) || '0' <= c <= '9' || c == '+' || c == '-' || c == '.' }

  /** What `urlsplit` takes for a scheme: an ASCII letter, then scheme characters. */
  predicate IsScheme(s: string) {
    s != [] && IsAsciiLetter(s[0]) && forall i :: 0 <= i < |s| ==> IsSchemeChar(s[i])
  }

  /**
   * The scheme as written and what follows its ':'. There is no scheme when
   * the text before the first ':' is not one.
   */
  function SplitScheme(url: string): (r: (string, string))
    ensures r.0 != [] ==> IsScheme(r.0) && url == r.0 + ":" + r.1
    ensures r.0 == [] ==> r.1 == url
    ensures r.0 == [] ==> forall i :: 0 <= i < |url| && url[i] == ':' ==> !IsScheme(url[..i])
  {
    IndexOfElement(url, ':');
    match IndexOf(url, ":")
    case None => ("", url)
    case Some(i) =>
      if IsScheme(url[..i]) then
        assert url == url[..i] + ":" + url[i + 1..];
        (url[..i], url[i + 1..])
      else
        assert forall k :: i < k <= |url| ==> url[..k][i] == ':';
        ("", url)
  }

  /** ASCII lower case, as `str.lower` acts on a scheme. */
  function Lower(s: string): string {
    seq(|s|, i requires 0 <= i < |s| => if 'A' <= s[i] <= 'Z' then (s[i] as int + 32) as char else s[i])
  }

  /** `uses_params`: the schemes, no scheme among them, whose last path segment carries ';' parameters. */
  const UsesParams: set<string> := {"", "ftp", "hdl", "prospero", "http", "imap", "https", "shttp",
                                    "rtsp", "rtsps", "rtspu", "sip", "sips", "mms", "sftp", "tel"}

  predicate HasAuthority(url: string) { |url| >= 2 && url[0] == '/' && url[1] == '/' }

  predicate EndsAuthority(c: char) { c == '/' || c == '?' || c == '#' }

  /** The length of the authority: up to the first '/', '?' or '#'. */
  function AuthorityLength(s: string): (n: nat)
    ensures n <= |s| && (n < |s| ==> EndsAuthority(s[n]))
    ensures forall j :: 0 <= j < n ==> !EndsAuthority(s[j])
    decreases |s|
  {
    if s == [] || EndsAuthority(s[0]) then 0 else 1 + AuthorityLength(s[1..])
  }

  /** `_splitnetloc(url, 2)`: the authority after "//", and the rest from the first '/', '?' or '#'. */
  function SplitNetloc(url: string): (r: (string, string))
    requires HasAuthority(url)
    ensures url == "//" + r.0 + r.1
    ensures forall j :: 0 <= j < |r.0| ==> !EndsAuthority(r.0[j])
    ensures r.1 == [] || EndsAuthority(r.1[0])
  {
    var rest := url[2..];
    var n := AuthorityLength(rest);
    assert url == "//" + rest[..n] + rest[n..];
    (rest[..n], rest[n..])
  }

  /** The netloc `urlsplit` refuses with ValueError: it holds '[' or ']' but not both. */
  predicate UnpairedBrackets(netloc: string) { ('[' in netloc) != (']' in netloc) }

  /**
   * The path and the query of what is left after the scheme and the
   * authority. The path runs up to the first '?' or '#'; the query lies
   * between a '?' that ends the path and the first '#' after it, and is empty
   * otherwise.
   */
  function SplitPathQuery(url: string): (r: (string, string))
    ensures |r.0| <= |url| && url[..|r.0|] == r.0
    ensures '?' !in r.0 && '#' !in r.0 && '#' !in r.1
    ensures |r.0| < |url| ==> url[|r.0|] == '?' || url[|r.0|] == '#'
    ensures |r.0| < |url| && url[|r.0|] == '?' ==>
      var start := |r.0| + 1;
      start + |r.1| <= |url| && url[start..start + |r.1|] == r.1
      && (start + |r.1| == |url| || url[start + |r.1|] == '#')
    ensures |r.0| == |url| || url[|r.0|] == '#' ==> r.1 == []
  {
    IndexOfElement(url, '#');
    var beforeFragment := match IndexOf(url, "#") { case None => url case Some(i) => url[..i] };
    IndexOfElement(beforeFragment, '?');
    match IndexOf(beforeFragment, "?")
    case None => (beforeFragment, "")
    case Some(j) => (beforeFragment[..j], beforeFragment[j + 1..])
  }

  /** `_splitparams`: the path up to the first ';' after its last '/'. */
  function CutParams(path: string): (r: string)
    ensures |r| <= |path| && path[..|r|] == r
  {
    var from := ParamsSearchStart(path);
    IndexOfElement(path[from..], ';');
    match IndexOf(path[from..], ";")
    case None => path
    case Some(k) => path[..from + k]
  }

  /** Where `_splitparams` starts looking for ';': the last '/', or the start when there is none. */
  function ParamsSearchStart(path: string): (from: nat)
    ensures from <= |path|
  {
    match LastIndexOf(path, '/') case None => 0 case Some(s) => s
  }

  /** The cut, if any, is at a ';' with no '/' after it. */
  lemma CutAtParams(path: string)
    ensures var r := CutParams(path); r != path ==> path[|r|] == ';' && '/' !in path[|r|..]
  {
    var from := ParamsSearchStart(path);
    var tail := path[from..];
    IndexOfElement(tail, ';');
    match IndexOf(tail, ";")
    case None =>
    case Some(k) =>
      assert CutParams(path) == path[..from + k];
      assert path[from + k] == tail[k] == ';';
      match LastIndexOf(path, '/')
      case None =>
        SuffixWithout(path, 0, from + k, '/');
      case Some(s) =>
        assert from == s && tail[0] == '/' && k > 0;
        SuffixWithout(path, s + 1, from + k, '/');
  }

  /** Every ';' that `CutParams` keeps has a '/' after it. */
  lemma KeptParamsMarks(path: string)
    ensures var r := CutParams(path); forall j :: 0 <= j < |r| && r[j] == ';' ==> '/' in path[j..]
  {
    var r := CutParams(path);
    var from := ParamsSearchStart(path);
    var tail := path[from..];
    IndexOfElement(tail, ';');
    var slash := LastIndexOf(path, '/');
    assert slash.None? ==> ';' !in r by {
      if slash.None? {
        assert forall j :: 0 <= j < |r| ==> r[j] == tail[j];
      }
    }
    forall j | 0 <= j < |r| && r[j] == ';' ensures '/' in path[j..] {
      assert slash.Some? && j < from;
      assert path[j..][from - j] == '/';
    }
  }

  /** `urlparse(target)`: its path and query, or None where it raises ValueError. */
  function Parse(target: string): (r: Option<Target>)
    ensures r.Some? ==> '?' !in r.value.path && '#' !in r.value.path && '#' !in r.value.query
  {
    var url := StripLeading(target);
    var (scheme, afterScheme) := SplitScheme(url);
    var (netloc, rest) := if HasAuthority(afterScheme) then SplitNetloc(afterScheme) else ("", afterScheme);
    if UnpairedBrackets(netloc) then None
    else
      var (path, query) := SplitPathQuery(rest);
      if !(Lower(scheme) in UsesParams) then Some(Target(path, query))
      else
        PrefixWithout(path, CutParams(path), '?');
        PrefixWithout(path, CutParams(path), '#');
        Some(Target(CutParams(path), query))
  }

  /** Without a ';' nothing is cut. */
  lemma CutParamsNone(path: string)
    requires ';' !in path
    ensures CutParams(path) == path
  {
    var from := ParamsSearchStart(path);
    IndexOfElement(path[from..], ';');
    assert forall j :: 0 <= j < |path| - from ==> path[from..][j] == path[from + j];
  }

  /** A target "<path>?<query>" splits into exactly that path and query. */
  lemma SplitPathAndQuery(path: string, query: string)
    requires '?' !in path && '#' !in path && '#' !in query
    ensures SplitPathQuery(path + "?" + query) == (path, query)
  {
    var url := path + "?" + query;
    assert forall k :: 0 <= k < |path| ==> url[k] == path[k];
    assert url[|path|] == '?';
    assert forall k :: 0 <= k < |query| ==> url[|path| + 1 + k] == query[k];
    var r := SplitPathQuery(url);
    assert |r.0| == |path|;
    assert r.0 == path;
    assert |r.1| == |query|;
    assert url[|path| + 1..] == query;
  }

  /** A target without '?' and '#' is all path. */
  lemma SplitPathOnly(path: string)
    requires '?' !in path && '#' !in path
    ensures SplitPathQuery(path) == (path, "")
  {
  }

  /**
   * An origin-form target, one that starts with a single '/', has no scheme
   * and no authority, and `urlparse` does not raise on it.
   */
  lemma OriginForm(target: string)
    requires target != [] && target[0] == '/' && !HasAuthority(target)
    ensures Parse(target) == Some(Target(CutParams(SplitPathQuery(target).0), SplitPathQuery(target).1))
  {
    NoScheme(target);
    assert Lower("") == "";
  }

  /** Text that starts with '/' is not stripped and has no scheme. */
  lemma NoScheme(url: string)
    requires url != [] && url[0] == '/'
    ensures StripLeading(url) == url && SplitScheme(url) == ("", url)
  {
    forall i | 0 <= i < |url| && url[i] == ':' ensures !IsScheme(url[..i]) {
      assert url[..i] == [] || url[..i][0] == '/';
    }
  }

  /** `urlparse` of "<path>?<query>" in origin form, without parameters, gives that path and query. */
  lemma OriginFormPath(path: string, query: string)
    requires path != [] && path[0] == '/' && (|path| == 1 || path[1] != '/')
    requires '?' !in path && '#' !in path && ';' !in path && '#' !in query
    ensures Parse(path + "?" + query) == Some(Target(path, query))
    ensures Parse(path) == Some(Target(path, ""))
  {
    var target := path + "?" + query;
    assert target[0] == '/' && (|path| == 1 ==> target[1] == '?') && (|path| > 1 ==> target[1] == path[1]);
    OriginForm(target);
    SplitPathAndQuery(path, query);
    OriginForm(path);
    SplitPathOnly(path);
    CutParamsNone(path);
  }

  /** The netloc `urlsplit` refuses: a target "//<netloc>..." whose netloc pairs no bracket makes `urlparse` raise. */
  lemma UnpairedAuthorityFails(netloc: string, rest: string)
    requires forall j :: 0 <= j < |netloc| ==> !EndsAuthority(netloc[j])
    requires rest == [] || EndsAuthority(rest[0])
    requires UnpairedBrackets(netloc)
    ensures Parse("//" + netloc + rest).None?
  {
    var target := "//" + netloc + rest;
    assert target[0] == '/' && target[1] == '/';
    NoScheme(target);
    NetlocOf(netloc, rest);
  }

  /** "//<netloc><rest>" splits at the end of the netloc when `rest` starts with '/', '?' or '#'. */
  lemma NetlocOf(netloc: string, rest: string)
    requires forall j :: 0 <= j < |netloc| ==> !EndsAuthority(netloc[j])
    requires rest == [] || EndsAuthority(rest[0])
    ensures HasAuthority("//" + netloc + rest)
    ensures SplitNetloc("//" + netloc + rest) == (netloc, rest)
  {
    var url := "//" + netloc + rest;
    assert url[2..] == netloc + rest;
    var n := AuthorityLength(url[2..]);
    assert forall j :: 0 <= j < |netloc| ==> url[2..][j] == netloc[j];
    assert rest != [] ==> url[2..][|netloc|] == rest[0];
    assert n == |netloc|;
    assert url[2..][..n] == netloc;
    assert url[2..][n..] == rest;
  }

  /** "<scheme>:<rest>" splits at that ':' and loses nothing to the strip. */
  lemma SchemeOf(scheme: string, rest: string)
    requires IsScheme(scheme)
    ensures StripLeading(scheme + ":" + rest) == scheme + ":" + rest
    ensures SplitScheme(scheme + ":" + rest) == (scheme, rest)
  {
    var url := scheme + ":" + rest;
    assert url[0] == scheme[0];
    assert ':' !in scheme by {
      assert forall j :: 0 <= j < |scheme| ==> IsSchemeChar(scheme[j]);
    }
    assert url == scheme + (":" + rest);
    IndexOfSkip(scheme, ":" + rest, ":");
    IndexOfFront(":", rest);
    assert IndexOf(url, ":") == Some(|scheme|);
    assert url[..|scheme|] == scheme;
    assert url[|scheme| + 1..] == rest;
  }

  /**
   * An absolute-form target "<scheme>://<host><path>?<query>" whose host holds
   * no bracket gives that path and query, when the path holds no ';'.
   */
  lemma AbsoluteForm(scheme: string, host: string, path: string, query: string)
    requires IsScheme(scheme)
    requires forall j :: 0 <= j < |host| ==> !EndsAuthority(host[j]) && host[j] != '[' && host[j] != ']'
    requires path == [] || path[0] == '/'
    requires '?' !in path && '#' !in path && ';' !in path && '#' !in query
    ensures Parse(scheme + "://" + host + path + "?" + query) == Some(Target(path, query))
  {
    var rest := path + "?" + query;
    var afterScheme := "//" + host + rest;
    assert scheme + "://" + host + path + "?" + query == scheme + ":" + afterScheme;
    SchemeOf(scheme, afterScheme);
    assert rest[0] == '/' || rest[0] == '?';
    NetlocOf(host, rest);
    assert !UnpairedBrackets(host);
    SplitPathAndQuery(path, query);
    CutParamsNone(path);
  }

  /** Without square brackets `urlparse` never raises. */
  lemma NoBracketsNoError(target: string)
    requires '[' !in target && ']' !in target
    ensures Parse(target).Some?
  {
    var url := StripLeading(target);
    var (scheme, afterScheme) := SplitScheme(url);
    assert target == target[..|target| - |url|] + url + [];
    InfixWithout(target[..|target| - |url|], url, [], '[');
    InfixWithout(target[..|target| - |url|], url, [], ']');
    if scheme != [] {
      assert url == scheme + ":" + afterScheme + [];
      InfixWithout(scheme + ":", afterScheme, [], '[');
      InfixWithout(scheme + ":", afterScheme, [], ']');
    }
    if HasAuthority(afterScheme) {
      var (netloc, rest) := SplitNetloc(afterScheme);
      InfixWithout("//", netloc, rest, '[');
      InfixWithout("//", netloc, rest, ']');
    }
  }

  /** The parameters of the last segment, from its ';', are dropped from the path. */
  lemma ParamsDropped(path: string, params: string)
    requires path != [] && path[0] == '/' && (|path| == 1 || path[1] != '/')
    requires '?' !in path && '#' !in path && ';' !in path
    requires '/' !in params && '?' !in params && '#' !in params
    ensures Parse(path + ";" + params) == Some(Target(path, ""))
  {
    var target := path + ";" + params;
    assert target[0] == '/';
    assert target[1] != '/' by {
      if |path| == 1 { assert target[1] == ';'; } else { assert target[1] == path[1]; }
    }
    OriginForm(target);
    ConcatWithout(path, ";", params, '?');
    ConcatWithout(path, ";", params, '#');
    SplitPathOnly(target);
    CutLastParams(path, params);
    assert CutParams(target) == path;
  }

  /** By the characterisation of `CutParams`: the cut falls at the only ';' that no '/' follows. */
  lemma CutLastParams(path: string, params: string)
    requires ';' !in path && '/' !in params
    ensures CutParams(path + ";" + params) == path
  {
    var target := path + ";" + params;
    var r := CutParams(target);
    CutAtParams(target);
    KeptParamsMarks(target);
    assert target[|path|..] == ";" + params;
    assert |r| == |path|;
    assert r == target[..|path|];
  }
}
