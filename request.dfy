/**
 * `parse_http_request` (tcp_server.py): from the decoded request text to
 * (method, path, query map); the method is the `verb` field. Only the request
 * line, the text before the first CRLF, is looked at. It is split on runs of
 * whitespace, and the second token, the request target, goes to `urlparse`
 * (module `Url`), whose query goes to `parse_qs` (module `FormUrlEncoded`).
 * The path is kept verbatim, without percent-decoding.
 */
module RequestParser {
  import opened Wrappers
  import opened Text
  import opened FormUrlEncoded
  import Url

  datatype Request = Request(verb: string, path: string, query: Query)

  /** What the parser returns for a request line with fewer than two tokens. */
  const Malformed := Request("", "", map[])

  /** `request.split("\r\n")[0]`: everything before the first CRLF, or all of it. */
  function FirstLine(request: string): (line: string)
    ensures |line| <= |request| && request[..|line|] == line
    ensures |line| < |request| ==> OccursAt(request, "\r\n", |line|)
    ensures forall j :: 0 <= j < |line| ==> !OccursAt(request, "\r\n", j)
  {
    match IndexOf(request, "\r\n")
    case None => request
    case Some(i) => request[..i]
  }

  /**
   * `parse_http_request`: None where `urlparse` raises ValueError; otherwise
   * the path never holds '?' or '#', and no name maps to an empty list.
   */
  function ParseRequest(request: string): (r: Option<Request>)
    ensures |Tokens(FirstLine(request))| < 2 ==> r == Some(Malformed)
    ensures r.Some? ==> '?' !in r.value.path && '#' !in r.value.path
    ensures r.Some? ==> forall k :: k in r.value.query ==> r.value.query[k] != []
  {
    var parts := Tokens(FirstLine(request));
    if |parts| < 2 then Some(Malformed)
    else
      match Url.Parse(parts[1])
      case None => None
      case Some(target) => Some(Request(parts[0], target.path, ParseQs(target.query)))
  }

  /** The text holds no CRLF; a lone CR or LF may occur. */
  predicate NoCrlf(line: string) {
    forall j :: 0 <= j < |line| ==> !OccursAt(line, "\r\n", j)
  }

  /** Text without a CR holds no CRLF, whatever follows it. */
  lemma NoCrlfAfter(a: string, b: string)
    requires '\r' !in a && NoCrlf(b)
    ensures NoCrlf(a + b)
  {
    var s := a + b;
    var crlf := "\r\n";
    assert |crlf| == 2 && crlf[0] == '\r';
    forall j | 0 <= j < |s| ensures !OccursAt(s, crlf, j) {
      if j + 2 <= |s| {
        if j < |a| {
          assert s[j..j + 2][0] == a[j];
          assert s[j..j + 2] != crlf;
        } else {
          var i := j - |a|;
          assert s[j..j + 2] == b[i..i + 2];
          assert !OccursAt(b, crlf, i);
        }
      }
    }
  }

  /** The request line is the whole text when it holds no CRLF. */
  lemma FirstLineWhole(line: string)
    requires NoCrlf(line)
    ensures FirstLine(line) == line
  {
  }

  /**
   * Header lines and the body, everything after the first CRLF, do not
   * matter; the request line may hold lone CRs and LFs.
   */
  lemma IgnoresLaterLines(line: string, rest: string)
    requires NoCrlf(line)
    ensures FirstLine(line + "\r\n" + rest) == line
    ensures ParseRequest(line + "\r\n" + rest) == ParseRequest(line)
  {
    var s := line + "\r\n" + rest;
    var crlf := "\r\n";
    assert |crlf| == 2 && crlf[1] == '\n';
    assert s[|line|..|line| + 2] == crlf;
    forall j | 0 <= j < |line| ensures !OccursAt(s, crlf, j) {
      if j + 2 <= |line| {
        assert s[j..j + 2] == line[j..j + 2];
        assert !OccursAt(line, crlf, j);
      } else {
        assert s[j..j + 2][1] == '\r';
        assert s[j..j + 2] != crlf;
      }
    }
    IndexOfFirst(s, "\r\n", |line|);
    assert s[..|line|] == line;
    FirstLineWhole(line);
  }

  /** The first two tokens of "<verb> <target> <more>" are the verb and the target. */
  lemma TokensOfRequestLine(verb: string, target: string, more: string)
    requires verb != [] && NoSpace(verb) && target != [] && NoSpace(target)
    ensures var t := Tokens(verb + " " + target + " " + more); |t| >= 2 && t[0] == verb && t[1] == target
  {
    assert verb + " " + target + " " + more == verb + [' '] + (target + [' '] + more);
    TokensOfWord(verb, ' ', target + [' '] + more);
    TokensOfWord(target, ' ', more);
  }

  lemma NoCarriageReturn(verb: string, target: string)
    requires NoSpace(verb) && NoSpace(target)
    ensures '\r' !in verb + " " + target + " "
  {
    assert IsSpace('\r');
    assert '\r' !in verb && '\r' !in target;
  }

  /**
   * A request line "<verb> <target> <more>" gives the verb as method and the
   * target's path and query; whatever follows the target on the line (the
   * protocol version, further tokens) and every later line are ignored.
   */
  lemma ParseRequestLine(verb: string, target: string, more: string, rest: string)
    requires verb != [] && NoSpace(verb) && target != [] && NoSpace(target) && NoCrlf(more)
    ensures ParseRequest(verb + " " + target + " " + more + "\r\n" + rest)
         == match Url.Parse(target)
            case None => None
            case Some(t) => Some(Request(verb, t.path, ParseQs(t.query)))
  {
    var line := verb + " " + target + " " + more;
    NoCarriageReturn(verb, target);
    NoCrlfAfter(verb + " " + target + " ", more);
    assert line == verb + " " + target + " " + more;
    IgnoresLaterLines(line, rest);
    FirstLineWhole(line);
    TokensOfRequestLine(verb, target, more);
  }

  /**
   * The well-formed case: "<verb> <path>?<query> <version>", with the path in
   * origin form and free of ';' parameters, gives (verb, path, decoded query).
   */
  lemma ParseWellFormed(verb: string, path: string, query: string, version: string, rest: string)
    requires verb != [] && NoSpace(verb) && NoSpace(path + "?" + query) && NoSpace(version)
    requires path != [] && path[0] == '/' && (|path| == 1 || path[1] != '/')
    requires '?' !in path && '#' !in path && ';' !in path && '#' !in query
    ensures ParseRequest(verb + " " + path + "?" + query + " " + version + "\r\n" + rest)
         == Some(Request(verb, path, ParseQs(query)))
  {
    NoCrlfOfSpaceFree(version);
    assert verb + " " + path + "?" + query + " " + version == verb + " " + (path + "?" + query) + " " + version;
    ParseRequestLine(verb, path + "?" + query, version, rest);
    Url.OriginFormPath(path, query);
  }

  /** A target whose authority pairs no square bracket makes `urlparse`, and so the parser, raise. */
  lemma UnpairedAuthorityRaises(verb: string, netloc: string, path: string, version: string, rest: string)
    requires verb != [] && NoSpace(verb) && NoSpace("//" + netloc + path) && NoSpace(version)
    requires forall j :: 0 <= j < |netloc| ==> !Url.EndsAuthority(netloc[j])
    requires path == [] || Url.EndsAuthority(path[0])
    requires Url.UnpairedBrackets(netloc)
    ensures ParseRequest(verb + " " + "//" + netloc + path + " " + version + "\r\n" + rest).None?
  {
    NoCrlfOfSpaceFree(version);
    assert verb + " " + "//" + netloc + path + " " + version == verb + " " + ("//" + netloc + path) + " " + version;
    ParseRequestLine(verb, "//" + netloc + path, version, rest);
    Url.UnpairedAuthorityFails(netloc, path);
  }

  lemma NoCrlfOfSpaceFree(s: string)
    requires NoSpace(s)
    ensures NoCrlf(s)
  {
    assert IsSpace('\r');
    assert s + [] == s;
    NoCrlfAfter(s, []);
  }

  /** A request line of just "<verb> <target>", without a version, is parsed the same way. */
  lemma ParseTwoTokenLine(verb: string, target: string, rest: string)
    requires verb != [] && NoSpace(verb) && target != [] && NoSpace(target)
    ensures ParseRequest(verb + " " + target + "\r\n" + rest)
         == match Url.Parse(target)
            case None => None
            case Some(t) => Some(Request(verb, t.path, ParseQs(t.query)))
  {
    var line := verb + " " + target;
    assert IsSpace('\r');
    assert '\r' !in line;
    assert line + [] == line;
    NoCrlfAfter(line, []);
    IgnoresLaterLines(line, rest);
    FirstLineWhole(line);
    assert line == verb + [' '] + target;
    TokensOfWord(verb, ' ', target);
    TokensOfLastWord(target);
  }
}
