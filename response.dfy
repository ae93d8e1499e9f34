/**
 * `create_http_response` (tcp_server.py): the status line of section 4 of
 * RFC 9112, a fixed header set (Content-Type, a Content-Length that counts
 * the body's UTF-8 bytes as section 8.6 of RFC 9110 asks, and
 * `Connection: close` of section 9.6 of RFC 9112), the blank line, and the
 * body bytes. A reader for that framing is the builder's partner: reading a
 * built response back yields the code, the reason, the header fields and the
 * body that went in.
 */
module ResponseBuilder {
  import opened Wrappers
  import opened Text
  import Utf8

  const ContentType: string := "text/html; charset=utf-8"

  /** "HTTP/1.1 <code> <reason>": a reader gets the code and the reason back. */
  function StatusLine(code: int, reason: string): (line: string)
    ensures ReadStatusLine(line) == Some((code, reason))
    ensures '\r' !in reason ==> '\r' !in line
  {
    var dec := IntToDecimal(code);
    var line := "HTTP/1.1 " + dec + " " + reason;
    assert line[..9] == "HTTP/1.1 ";
    assert line[9..] == dec + (" " + reason);
    IndexOfFront(" ", reason);
    IndexOfSkip(dec, " " + reason, " ");
    assert (dec + (" " + reason))[..|dec|] == dec;
    assert (dec + (" " + reason))[|dec| + 1..] == reason;
    IntRoundTrip(code);
    line
  }

  /** A header field line, "<name>: <value>". */
  function FieldLine(name: string, value: string): string {
    name + ": " + value
  }

  /** The header text the server formats: each header line ended by CRLF, then the blank line. */
  function Head(code: int, reason: string, length: nat): (head: string)
    ensures head == Terminated(HeaderLines(code, reason, length) + [""], "\r\n")
  {
    var ls := HeaderLines(code, reason, length);
    assert ls + [""] == [ls[0], ls[1], ls[2], ls[3], []];
    TerminatedFour(ls[0], ls[1], ls[2], ls[3], "\r\n");
    StatusLine(code, reason) + "\r\n"
    + FieldLine("Content-Type", ContentType) + "\r\n"
    + FieldLine("Content-Length", NatToDecimal(length)) + "\r\n"
    + FieldLine("Connection", "close") + "\r\n"
    + "\r\n"
  }

  /**
   * `create_http_response(code, reason, body)`: the encoded header, then the
   * encoded body. Reading it back gives the code, the reason, the three fixed
   * header fields and the body, provided the reason holds no CR (which would
   * end the status line early).
   */
  function BuildResponse(code: int, reason: string, body: string): (r: seq<Utf8.Byte>)
    ensures '\r' !in reason ==> ReadResponse(r) == Some(Message(code, reason, FixedFields(|Utf8.Encode(body)|), body))
  {
    var n := |Utf8.Encode(body)|;
    var head := Head(code, reason, n);
    var r := Utf8.Encode(head) + Utf8.Encode(body);
    if '\r' in reason then r
    else
      Utf8.EncodeAppend(head, body);
      Utf8.DecodeEncode(head + body);
      ReadHeadAndBody(code, reason, n, body);
      r
  }

  // ----- reading a response back -----

  datatype Message = Message(code: int, reason: string, fields: seq<(string, string)>, body: string)

  /** "HTTP/1.1 <code> <reason>": the code runs to the first space after the version. */
  function ReadStatusLine(line: string): Option<(int, string)> {
    if |line| >= 9 && line[..9] == "HTTP/1.1 " then
      var rest := line[9..];
      match IndexOf(rest, " ")
      case None => None
      case Some(j) =>
        match ParseInt(rest[..j])
        case None => None
        case Some(code) => Some((code, rest[j + 1..]))
    else None
  }

  /** "<name>: <value>". */
  function ReadField(line: string): Option<(string, string)> {
    match IndexOf(line, ": ")
    case None => None
    case Some(i) => Some((line[..i], line[i + 2..]))
  }

  function ReadFields(lines: seq<string>): Option<seq<(string, string)>>
    decreases |lines|
  {
    if lines == [] then Some([])
    else
      match ReadField(lines[0])
      case None => None
      case Some(f) =>
        match ReadFields(lines[1..])
        case None => None
        case Some(fs) => Some([f] + fs)
  }

  /** The position of the first empty line, if any. */
  function FirstBlank(lines: seq<string>): (r: Option<nat>)
    ensures r.Some? ==> r.value < |lines| && lines[r.value] == []
    ensures r.Some? ==> forall j :: 0 <= j < r.value ==> lines[j] != []
    ensures r.None? ==> forall j :: 0 <= j < |lines| ==> lines[j] != []
    decreases |lines|
  {
    if lines == [] then None
    else if lines[0] == [] then Some(0)
    else match FirstBlank(lines[1..]) { case None => None case Some(k) => Some(k + 1) }
  }

  /**
   * Reads the lines of a response: the status line, header fields up to the
   * first empty line, and the lines after that empty one, rejoined, as the body.
   */
  function ReadLines(lines: seq<string>): Option<Message> {
    match FirstBlank(lines)
    case None => None
    case Some(k) =>
      if k == 0 || k + 1 == |lines| then None
      else ReadParts(lines[0], lines[1..k], lines[k + 1..])
  }

  /** A status line, the field lines and the body's lines. */
  function ReadParts(statusLine: string, fieldLines: seq<string>, bodyLines: seq<string>): Option<Message>
    requires |bodyLines| >= 1
  {
    match ReadStatusLine(statusLine)
    case None => None
    case Some(status) =>
      match ReadFields(fieldLines)
      case None => None
      case Some(fields) => Some(Message(status.0, status.1, fields, Join(bodyLines, "\r\n")))
  }

  function ReadText(text: string): Option<Message> {
    ReadLines(Split(text, "\r\n"))
  }

  /** Decodes the bytes as UTF-8 and reads the text. */
  function ReadResponse(r: seq<Utf8.Byte>): Option<Message> {
    match Utf8.Decode(r)
    case None => None
    case Some(text) => ReadText(text)
  }

  /** The value of the first field with this name. */
  function FieldValue(fields: seq<(string, string)>, name: string): Option<string>
    decreases |fields|
  {
    if fields == [] then None
    else if fields[0].0 == name then Some(fields[0].1)
    else FieldValue(fields[1..], name)
  }

  /** The body length a reader takes from the Content-Length field. */
  function DeclaredLength(m: Message): Option<nat> {
    match FieldValue(m.fields, "Content-Length")
    case None => None
    case Some(v) => ParseNat(v)
  }

  /** The header fields the server always sends, for a body of `length` bytes. */
  function FixedFields(length: nat): seq<(string, string)> {
    [("Content-Type", ContentType), ("Content-Length", NatToDecimal(length)), ("Connection", "close")]
  }

  /** One line per header field. */
  function FieldLines(fields: seq<(string, string)>): (lines: seq<string>)
    ensures |lines| == |fields|
    ensures forall i :: 0 <= i < |fields| ==> lines[i] == FieldLine(fields[i].0, fields[i].1)
  {
    seq(|fields|, i requires 0 <= i < |fields| => FieldLine(fields[i].0, fields[i].1))
  }

  /** The lines of the header: the status line, then one line per fixed field. */
  function HeaderLines(code: int, reason: string, length: nat): seq<string> {
    [StatusLine(code, reason)] + FieldLines(FixedFields(length))
  }

  lemma {:induction false} FirstBlankAfter(front: seq<string>, more: seq<string>)
    requires forall j :: 0 <= j < |front| ==> front[j] != []
    ensures FirstBlank(front + [[]] + more) == Some(|front|)
    decreases |front|
  {
    if front != [] {
      FirstBlankAfter(front[1..], more);
      assert (front + [[]] + more)[1..] == front[1..] + [[]] + more;
    }
  }

  /** Each line followed by the separator. */
  function Terminated<T>(lines: seq<seq<T>>, sep: seq<T>): seq<T>
    decreases |lines|
  {
    if lines == [] then [] else lines[0] + sep + Terminated(lines[1..], sep)
  }

  /** Separator-free lines, each followed by the separator, split off ahead of what follows them. */
  lemma {:induction false} SplitTerminated<T>(lines: seq<seq<T>>, rest: seq<T>, sep: seq<T>)
    requires |sep| > 0
    requires forall k :: 0 <= k < |lines| ==> sep[0] !in lines[k]
    ensures Split(Terminated(lines, sep) + rest, sep) == lines + Split(rest, sep)
    decreases |lines|
  {
    if lines != [] {
      var tail := Terminated(lines[1..], sep) + rest;
      var whole := Terminated(lines, sep) + rest;
      assert whole == lines[0] + sep + tail;
      assert sep[0] !in lines[0];
      assert forall k :: 0 <= k < |lines[1..]| ==> lines[1..][k] == lines[k + 1];
      calc {
        Split(whole, sep);
        { SplitFirst(lines[0], tail, sep); }
        [lines[0]] + Split(tail, sep);
        { SplitTerminated(lines[1..], rest, sep); }
        [lines[0]] + (lines[1..] + Split(rest, sep));
        { assert lines == [lines[0]] + lines[1..]; }
        lines + Split(rest, sep);
      }
    } else {
      assert Terminated(lines, sep) + rest == rest;
    }
  }

  /** The built header splits into its four lines and an empty one, ahead of the body's own lines. */
  lemma SplitHead(code: int, reason: string, length: nat, body: string)
    requires '\r' !in reason
    ensures Split(Head(code, reason, length) + body, "\r\n")
         == HeaderLines(code, reason, length) + [""] + Split(body, "\r\n")
  {
    var ls := HeaderLines(code, reason, length) + [""];
    FieldLinesFree(length);
    assert forall k :: 0 <= k < |ls| ==> '\r' !in ls[k] by {
      assert ls[0] == StatusLine(code, reason);
      assert forall k :: 1 <= k < 4 ==> ls[k] == FieldLines(FixedFields(length))[k - 1];
    }
    SplitTerminated(ls, body, "\r\n");
  }

  lemma FieldLinesFree(length: nat)
    ensures forall k :: 0 <= k < 3 ==> '\r' !in FieldLines(FixedFields(length))[k]
  {
    assert '\r' !in NatToDecimal(length) by {
      assert forall i :: 0 <= i < |NatToDecimal(length)| ==> IsDigit(NatToDecimal(length)[i]);
    }
    var ls := FieldLines(FixedFields(length));
    assert '\r' !in ls[0] && '\r' !in ls[1] && '\r' !in ls[2];
  }

  /** Four lines and an empty one, each terminated, in the order the header text writes them. */
  lemma TerminatedFour<T>(a: seq<T>, b: seq<T>, c: seq<T>, d: seq<T>, sep: seq<T>)
    ensures Terminated([a, b, c, d, []], sep) == a + sep + b + sep + c + sep + d + sep + sep
  {
    assert [a, b, c, d, []] == [a, b, c, d] + [[]];
    assert [a, b, c, d] == [a, b, c] + [d];
    assert [a, b, c] == [a, b] + [c];
    assert [a, b] == [a] + [b];
    assert [a] == [] + [a];
    TerminatedSnoc([], a, sep);
    TerminatedSnoc([a], b, sep);
    TerminatedSnoc([a, b], c, sep);
    TerminatedSnoc([a, b, c], d, sep);
    TerminatedSnoc([a, b, c, d], [], sep);
  }

  /** One more line at the end adds that line and its separator at the end. */
  lemma {:induction false} TerminatedSnoc<T>(lines: seq<seq<T>>, last: seq<T>, sep: seq<T>)
    ensures Terminated(lines + [last], sep) == Terminated(lines, sep) + last + sep
    decreases |lines|
  {
    if lines == [] {
      assert lines + [last] == [last];
    } else {
      assert (lines + [last])[1..] == lines[1..] + [last];
      TerminatedSnoc(lines[1..], last, sep);
    }
  }

  lemma ReadNamedField(name: string, value: string)
    requires ':' !in name
    ensures ReadField(FieldLine(name, value)) == Some((name, value))
  {
    IndexOfFront(": ", value);
    IndexOfSkip(name, ": " + value, ": ");
    assert name + ": " + value == name + (": " + value);
    assert (name + ": " + value)[..|name|] == name;
    assert (name + ": " + value)[|name| + 2..] == value;
  }

  /** Field lines whose names hold no colon read back as the fields they were made from. */
  lemma {:induction false} ReadFieldLines(fields: seq<(string, string)>)
    requires forall i :: 0 <= i < |fields| ==> ':' !in fields[i].0
    ensures ReadFields(FieldLines(fields)) == Some(fields)
    decreases |fields|
  {
    if fields != [] {
      var lines := FieldLines(fields);
      var rest := fields[1..];
      assert forall i :: 0 <= i < |rest| ==> rest[i] == fields[i + 1];
        ReadNamedField(fields[0].0, fields[0].1);
      ReadFieldLines(rest);
      assert lines[1..] == FieldLines(rest);
      assert ReadField(lines[0]) == Some(fields[0]);
      assert fields == [fields[0]] + rest;
    }
  }

  lemma ReadOwnFields(length: nat)
    ensures ReadFields(HeaderLines(0, "", length)[1..]) == Some(FixedFields(length))
  {
    var fs := FixedFields(length);
    assert HeaderLines(0, "", length)[1..] == FieldLines(fs);
    assert ':' !in fs[0].0 && ':' !in fs[1].0 && ':' !in fs[2].0;
    ReadFieldLines(fs);
  }

  lemma ReadHeadAndBody(code: int, reason: string, n: nat, body: string)
    requires '\r' !in reason
    ensures ReadText(Head(code, reason, n) + body) == Some(Message(code, reason, FixedFields(n), body))
  {
    var ls := HeaderLines(code, reason, n);
    var more := Split(body, "\r\n");
    SplitHead(code, reason, n, body);
    assert ls[0] != [] && ls[1] != [] && ls[2] != [] && ls[3] != [];
    assert ls[0] == StatusLine(code, reason);
    ReadOwnFields(n);
    assert ls[1..] == HeaderLines(0, "", n)[1..];
    ReadHeaderLines(ls, more);
    ReadOwnParts(ls[0], ls[1..], more, (code, reason), FixedFields(n));
    JoinSplit(body, "\r\n");
  }

  /** Lines up to the first empty one, and the lines after it, are read as a status line, field lines and the body's lines. */
  lemma ReadHeaderLines(ls: seq<string>, more: seq<string>)
    requires |ls| >= 1 && |more| >= 1
    requires forall k :: 0 <= k < |ls| ==> ls[k] != []
    ensures ReadLines(ls + [""] + more) == ReadParts(ls[0], ls[1..], more)
  {
    var lines := ls + [""] + more;
    var k := |ls|;
    FirstBlankAfter(ls, more);
    assert lines[0] == ls[0];
    assert lines[1..k] == ls[1..];
    assert lines[k + 1..] == more;
  }

  lemma ReadOwnParts(statusLine: string, fieldLines: seq<string>, bodyLines: seq<string>,
                     status: (int, string), fields: seq<(string, string)>)
    requires |bodyLines| >= 1
    requires ReadStatusLine(statusLine) == Some(status) && ReadFields(fieldLines) == Some(fields)
    ensures ReadParts(statusLine, fieldLines, bodyLines)
         == Some(Message(status.0, status.1, fields, Join(bodyLines, "\r\n")))
  {
  }

  /**
   * The Content-Length a reader finds is the body's UTF-8 byte count, the body
   * is exactly that many final bytes of the response, and that count is at
   * least the number of characters, equal to it exactly for an ASCII body.
   */
  lemma ContentLengthIsBodyBytes(code: int, reason: string, body: string)
    requires '\r' !in reason
    ensures var r := BuildResponse(code, reason, body);
            var n := |Utf8.Encode(body)|;
            && ReadResponse(r).Some? && DeclaredLength(ReadResponse(r).value) == Some(n)
            && n <= |r| && r[|r| - n..] == Utf8.Encode(body)
            && n >= |body|
            && (n == |body| <==> forall i :: 0 <= i < |body| ==> Utf8.IsAscii(body[i]))
  {
    var n := |Utf8.Encode(body)|;
    var r := BuildResponse(code, reason, body);
    DeclaresLength(code, reason, body, n);
    assert r[|r| - n..] == Utf8.Encode(body);
    Utf8.EncodedLengthAscii(body);
  }

  /** The fixed fields declare the length they were built with. */
  lemma DeclaresLength(code: int, reason: string, body: string, n: nat)
    ensures DeclaredLength(Message(code, reason, FixedFields(n), body)) == Some(n)
  {
    var fs := FixedFields(n);
    assert fs[0].0 != "Content-Length";
    assert fs[1..][1..] == fs[2..];
    assert fs[1..][0].0 == "Content-Length";
    assert FieldValue(fs, "Content-Length") == Some(NatToDecimal(n));
    NatRoundTrip(n);
  }
}
