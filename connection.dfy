/**
 * `handle_client` (tcp_server.py): one read from the client socket, then a
 * response chosen by the outcome of decoding, parsing and routing, then a
 * close in `finally`. The socket is a `Connection` whose read result, failing
 * writes and failing close are scripted up front, and which logs every call
 * made on it in order.
 */
module ConnectionHandler {
  import opened RequestParser
  import opened Router
  import opened ResponseBuilder
  import Utf8

  /** What `recv` gives: some bytes (none when the peer closed), or an exception. */
  datatype Received = Data(bytes: seq<Utf8.Byte>) | RecvError

  /**
   * A response as `create_http_response` receives it; what goes on the wire
   * is `Bytes` of it.
   */
  datatype Response = Response(code: int, reason: string, body: string)

  function Bytes(r: Response): seq<Utf8.Byte> {
    BuildResponse(r.code, r.reason, r.body)
  }

  /** A call made on the socket; a write records the response it carries and whether `sendall` raised. */
  datatype Call = RecvCall | Wrote(response: Response, failed: bool) | Closed

  /**
   * How `handle_client` ended: nothing sent on an empty read, the routed
   * response sent, a 400 sent, a 400 whose write raised out of the handler
   * (after the close), or a 500 attempted, `sent` telling whether it went out.
   */
  datatype Outcome = Dropped | Answered(code: int) | BadRequest | BadRequestEscaped | InternalError(sent: bool)

  const BadRequestResponse := Response(400, "Bad Request", "<h1>400 - Bad Request</h1><p>Неверный формат запроса</p>")
  const InternalErrorResponse := Response(500, "Internal Server Error", "<h1>500 - Internal Server Error</h1>")

  /** A client socket with a scripted peer. */
  class Connection {
    /** The result of the (single) `recv`. */
    const incoming: Received
    /** The write attempts, counted from 0, on which `sendall` raises. */
    const failingWrites: set<nat>
    /** Whether `close` raises. */
    const closeRaises: bool
    /** Every call made on the socket, in order. */
    var log: seq<Call>
    /** How many writes have been attempted. */
    var attempts: nat

    constructor(incoming: Received, failingWrites: set<nat>, closeRaises: bool)
      ensures this.incoming == incoming && this.failingWrites == failingWrites && this.closeRaises == closeRaises
      ensures log == [] && attempts == 0
    {
      this.incoming := incoming;
      this.failingWrites := failingWrites;
      this.closeRaises := closeRaises;
      log := [];
      attempts := 0;
    }

    method Recv() returns (r: Received)
      modifies this
      ensures r == incoming
      ensures log == old(log) + [RecvCall] && attempts == old(attempts)
    {
      r := incoming;
      log := log + [RecvCall];
    }

    /** `sendall` of the bytes of `response`: it either sends them all (`ok`) or raises. */
    method SendAll(response: Response) returns (ok: bool)
      modifies this
      ensures ok <==> old(attempts) !in failingWrites
      ensures log == old(log) + [Wrote(response, !ok)] && attempts == old(attempts) + 1
    {
      ok := attempts !in failingWrites;
      log := log + [Wrote(response, !ok)];
      attempts := attempts + 1;
    }

    /** `close`: `ok` is false when it raised. */
    method Close() returns (ok: bool)
      modifies this
      ensures ok <==> !closeRaises
      ensures log == old(log) + [Closed] && attempts == old(attempts)
    {
      ok := !closeRaises;
      log := log + [Closed];
    }
  }

  /**
   * What the `try` block has to send once the read is done: nothing (empty
   * read), the 400 (the bytes are not UTF-8), nothing because an exception
   * went to `except Exception` (the read, `urlparse` or a service handler
   * raised), or the routed response.
   */
  datatype Prepared = Empty | Undecodable | Failed | Ready(response: Response)

  /**
   * Decode, parse, route and build: the pure steps of the `try` block between
   * the read and the write. An empty read and only that is dropped; bytes
   * that are not UTF-8, and only those, get the 400; a 500 follows a raising
   * `urlparse` or a raising service handler; what gets through is a 200 for a
   * served path and a 404 for any other.
   */
  function Prepare(data: seq<Utf8.Byte>, site: Site): (p: Prepared)
    ensures p == Empty <==> data == []
    ensures p == Undecodable <==> data != [] && Utf8.Decode(data).None?
    ensures p == Failed <==>
      data != [] && Utf8.Decode(data).Some? &&
      var request := ParseRequest(Utf8.Decode(data).value);
      request.None? || Route(request.value.path, request.value.query, site).HandlerFailure?
    ensures p.Ready? ==> p.response.code == 200 || p.response.code == 404
    ensures p.Ready? ==> (p.response.code == 200 <==> Served(ParseRequest(Utf8.Decode(data).value).value.path))
  {
    if data == [] then Empty
    else
      match Utf8.Decode(data)
      case None => Undecodable
      case Some(text) =>
        match ParseRequest(text)
        case None => Failed
        case Some(request) =>
          match Route(request.path, request.query, site)
          case HandlerFailure => Failed
          case Reply(code, reason, body) => Ready(Response(code, reason, body))
  }

  /** The read's outcome joins `Prepare`: a raising `recv` goes to `except Exception`. */
  function PrepareReceived(received: Received, site: Site): (p: Prepared)
    ensures received.RecvError? ==> p == Failed
    ensures p == Empty <==> received == Data([])
  {
    match received
    case RecvError => Failed
    case Data(data) => Prepare(data, site)
  }

  /**
   * The calls after the read, when `k` writes were attempted before, and how
   * the handler ends: the `try` block's write, the 500 once an exception has
   * reached `except Exception` (a failing routed write included), the close.
   */
  function Exchange(prepared: Prepared, site: Site, k: nat, failing: set<nat>): (r: (seq<Call>, Outcome))
    ensures r.1 == BadRequestEscaped <==> prepared == Undecodable && k in failing
  {
    match prepared
    case Empty => ([Closed], Dropped)
    case Undecodable =>
      var ok := k !in failing;
      ([Wrote(BadRequestResponse, !ok), Closed], if ok then BadRequest else BadRequestEscaped)
    case Failed =>
      var ok := k !in failing;
      ([Wrote(InternalErrorResponse, !ok), Closed], InternalError(ok))
    case Ready(response) =>
      if k !in failing then ([Wrote(response, false), Closed], Answered(response.code))
      else
        var ok := k + 1 !in failing;
        ([Wrote(response, true), Wrote(InternalErrorResponse, !ok), Closed], InternalError(ok))
  }

  /**
   * Every call `handle_client` makes on a socket whose read gives `incoming`,
   * and how it ends: the read comes first, and the only way out by an
   * exception is a raising write of the 400.
   */
  function Conversation(incoming: Received, site: Site, k: nat, failing: set<nat>): (r: (seq<Call>, Outcome))
    ensures r.0 != [] && r.0[0] == RecvCall
    ensures r.1 == BadRequestEscaped <==> PrepareReceived(incoming, site) == Undecodable && k in failing
  {
    var (calls, outcome) := Exchange(PrepareReceived(incoming, site), site, k, failing);
    ([RecvCall] + calls, outcome)
  }

  /** The `try` block of `handle_client` from the write on, its two `except` handlers and its `finally`. */
  method Respond(conn: Connection, site: Site, prepared: Prepared) returns (outcome: Outcome)
    modifies conn
    ensures var (calls, expected) := Exchange(prepared, site, old(conn.attempts), conn.failingWrites);
            conn.log == old(conn.log) + calls && outcome == expected
            && conn.attempts == old(conn.attempts) + |calls| - 1
  {
    // set once an exception has reached `except Exception`
    var raised := false;
    outcome := Dropped;
    match prepared {
      case Empty =>
      case Undecodable =>
        // `except UnicodeDecodeError`: a raising write is not caught
        var ok := conn.SendAll(BadRequestResponse);
        outcome := if ok then BadRequest else BadRequestEscaped;
      case Failed =>
        raised := true;
      case Ready(response) =>
        var ok := conn.SendAll(response);
        outcome, raised := Answered(response.code), !ok;
    }
    if raised {
      // `except Exception`: a raising write of the 500 is swallowed
      var ok := conn.SendAll(InternalErrorResponse);
      outcome := InternalError(ok);
    }
    // `finally`: a raising close is swallowed
    var _ := conn.Close();
  }

  /** `handle_client(client_socket, address)`. */
  method HandleClient(conn: Connection, site: Site) returns (outcome: Outcome)
    modifies conn
    ensures var (calls, expected) := Conversation(conn.incoming, site, old(conn.attempts), conn.failingWrites);
            conn.log == old(conn.log) + calls && outcome == expected
            && conn.attempts == old(conn.attempts) + |calls| - 2
  {
    ghost var before, k := conn.log, conn.attempts;
    var received := conn.Recv();
    var prepared := PrepareReceived(received, site);
    ghost var ex := Exchange(prepared, site, k, conn.failingWrites);
    assert Conversation(conn.incoming, site, k, conn.failingWrites) == ([RecvCall] + ex.0, ex.1);
    outcome := Respond(conn, site, prepared);
    assert conn.log == before + ([RecvCall] + ex.0);
  }

  /** How many times `close` was called. */
  function Closes(calls: seq<Call>): nat {
    if calls == [] then 0 else (if calls[0].Closed? then 1 else 0) + Closes(calls[1..])
  }

  /** The responses handed to `sendall`, in order, whether or not it raised. */
  function Writes(calls: seq<Call>): seq<Response> {
    if calls == [] then [] else (if calls[0].Wrote? then [calls[0].response] else []) + Writes(calls[1..])
  }

  lemma {:induction false} ClosesAppend(a: seq<Call>, b: seq<Call>)
    ensures Closes(a + b) == Closes(a) + Closes(b)
  {
    if a == [] {
      assert a + b == b;
    } else {
      assert (a + b)[1..] == a[1..] + b;
      ClosesAppend(a[1..], b);
    }
  }

  lemma {:induction false} WritesAppend(a: seq<Call>, b: seq<Call>)
    ensures Writes(a + b) == Writes(a) + Writes(b)
  {
    if a == [] {
      assert a + b == b;
    } else {
      var ab := a + b;
      var here := if a[0].Wrote? then [a[0].response] else [];
      assert ab[0] == a[0] && ab[1..] == a[1..] + b;
      assert Writes(ab) == here + Writes(a[1..] + b);
      WritesAppend(a[1..], b);
      assert Writes(a) == here + Writes(a[1..]);
    }
  }

  /** Once the read is done, `close` is called exactly once, as the last call, and at most two writes precede it. */
  lemma ExchangeClosesOnce(prepared: Prepared, site: Site, k: nat, failing: set<nat>)
    ensures var calls := Exchange(prepared, site, k, failing).0;
            |calls| >= 1 && calls[|calls| - 1] == Closed && Closes(calls) == 1
            && |Writes(calls)| <= 2 && |Writes(calls)| == |calls| - 1
  {
    var calls := Exchange(prepared, site, k, failing).0;
    var front := calls[..|calls| - 1];
    assert calls == front + [Closed];
    assert forall i | 0 <= i < |front| :: front[i].Wrote?;
    OnlyWrites(front);
    ClosesAppend(front, [Closed]);
    WritesAppend(front, [Closed]);
    assert Closes([Closed]) == 1;
    assert Writes([Closed]) == [];
  }

  lemma {:induction false} OnlyWrites(calls: seq<Call>)
    requires forall i | 0 <= i < |calls| :: calls[i].Wrote?
    ensures Closes(calls) == 0 && |Writes(calls)| == |calls|
  {
    if calls != [] {
      OnlyWrites(calls[1..]);
    }
  }

  /**
   * On every path, including a raising read, a raising handler and a raising
   * write, the handler reads first, closes exactly once and closes last.
   */
  lemma CloseExactlyOnce(incoming: Received, site: Site, k: nat, failing: set<nat>)
    ensures var calls := Conversation(incoming, site, k, failing).0;
            calls[0] == RecvCall && calls[|calls| - 1] == Closed && Closes(calls) == 1
            && |Writes(calls)| <= 2
  {
    var rest := Exchange(PrepareReceived(incoming, site), site, k, failing).0;
    ExchangeClosesOnce(PrepareReceived(incoming, site), site, k, failing);
    ClosesAppend([RecvCall], rest);
    WritesAppend([RecvCall], rest);
    assert Closes([RecvCall]) == 0 && Writes([RecvCall]) == [];
  }

  /** A zero-byte read writes nothing. */
  lemma EmptyReadWritesNothing(site: Site, k: nat, failing: set<nat>)
    ensures var (calls, outcome) := Conversation(Data([]), site, k, failing);
            Writes(calls) == [] && outcome == Dropped
  {
    assert Conversation(Data([]), site, k, failing).0 == [RecvCall, Closed];
    assert [RecvCall, Closed][1..] == [Closed];
  }

  /**
   * Bytes that are not UTF-8 get exactly the 400; the handler returns normally
   * unless that write raised.
   */
  lemma DecodeFailureWritesBadRequest(data: seq<Utf8.Byte>, site: Site, k: nat, failing: set<nat>)
    requires data != [] && Utf8.Decode(data).None?
    ensures var (calls, outcome) := Conversation(Data(data), site, k, failing);
            Writes(calls) == [BadRequestResponse]
            && (outcome == BadRequest <==> k !in failing)
            && (outcome == BadRequestEscaped <==> k in failing)
  {
    ConversationWrites(Data(data), site, k, failing);
    WritesOfExchange(Undecodable, site, k, failing);
  }

  /** The failure `except Exception` catches: the read raised, or a service handler did. */
  predicate CaughtFailure(incoming: Received, site: Site) {
    PrepareReceived(incoming, site).Failed?
  }

  /** The calls after the read make the same writes as the whole conversation. */
  lemma ConversationWrites(incoming: Received, site: Site, k: nat, failing: set<nat>)
    ensures Writes(Conversation(incoming, site, k, failing).0)
         == Writes(Exchange(PrepareReceived(incoming, site), site, k, failing).0)
  {
    var rest := Exchange(PrepareReceived(incoming, site), site, k, failing).0;
    WritesAppend([RecvCall], rest);
    assert Writes([RecvCall]) == [];
  }

  lemma WritesOfExchange(prepared: Prepared, site: Site, k: nat, failing: set<nat>)
    ensures var w := Writes(Exchange(prepared, site, k, failing).0);
            match prepared
            case Empty => w == []
            case Undecodable => w == [BadRequestResponse]
            case Failed => w == [InternalErrorResponse]
            case Ready(response) =>
              w == if k !in failing then [response] else [response, InternalErrorResponse]
  {
    var calls := Exchange(prepared, site, k, failing).0;
    var front := calls[..|calls| - 1];
    assert calls == front + [Closed];
    WritesAppend(front, [Closed]);
    assert Writes([Closed]) == [];
    if |front| == 2 {
      assert front == [front[0]] + [front[1]];
      WritesAppend([front[0]], [front[1]]);
    }
  }

  /**
   * Any other failure (a raising read, a raising handler, or a raising write
   * of the routed response) ends in an attempted 500 as the last write, and
   * the handler returns normally whether or not that write raised.
   */
  lemma OtherFailureWritesInternalError(incoming: Received, site: Site, k: nat, failing: set<nat>)
    requires CaughtFailure(incoming, site) || (PrepareReceived(incoming, site).Ready? && k in failing)
    ensures var (calls, outcome) := Conversation(incoming, site, k, failing);
            |Writes(calls)| >= 1 && Writes(calls)[|Writes(calls)| - 1] == InternalErrorResponse
            && outcome.InternalError?
            && |calls| >= 3 && calls[|calls| - 2] == Wrote(InternalErrorResponse, !outcome.sent)
  {
    ConversationWrites(incoming, site, k, failing);
    WritesOfExchange(PrepareReceived(incoming, site), site, k, failing);
  }

  /** The routed response is sent, alone, exactly when its write does not raise; then the handler reports its code. */
  lemma RoutedResponseSent(incoming: Received, site: Site, k: nat, failing: set<nat>, response: Response)
    requires PrepareReceived(incoming, site) == Ready(response)
    ensures var (calls, outcome) := Conversation(incoming, site, k, failing);
            (outcome == Answered(response.code) <==> k !in failing)
            && (k !in failing ==> Writes(calls) == [response])
            && |Writes(calls)| >= 1 && Writes(calls)[0] == response
  {
    ConversationWrites(incoming, site, k, failing);
    WritesOfExchange(PrepareReceived(incoming, site), site, k, failing);
  }
}
