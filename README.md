# A model of the request-to-response pipeline of `tcp_server.py`

`tcp_server.py` is a small HTTP server written straight on sockets. Each
client connection is handled by `handle_client`, in these steps:

1. It reads the request once and decodes the bytes as UTF-8.
2. `parse_http_request` parses the text into a method, a path and a query map.
3. An `if/elif` chain routes the path. It picks the index page, the movie
   search page, the exchange-rate service, the movie service, or a 404 page.
4. `create_http_response` formats the response, and `sendall` writes it.
5. It closes the socket in `finally`.

A decode failure is answered with a 400. Any other failure is answered with a
500, and a failure of that write is ignored.

The Dafny project models these four parts, and the library code they depend on:

- `Text` (text.dfy): sequence search, `split` on a separator, Python's
  whitespace `str.split()`, and decimal numerals.
- `Utf8` (utf8.dfy): a UTF-8 encoder and a strict decoder over `seq<char>`,
  following section 3 of RFC 3629. There is also a decoder that replaces bad
  bytes with U+FFFD.
- `Url` (url.dfy): what `urllib.parse.urlparse` (CPython 3.12) does to a
  request target, in order:
  - strip leading C0 controls and spaces;
  - split off a scheme;
  - split off a `//` authority, and raise `ValueError` when it has only one
    of the two square brackets;
  - cut the fragment at `#` and the query at `?`;
  - cut `;` parameters from the last path segment.
- `FormUrlEncoded` (query.dfy): `parse_qs` with its default arguments.
  - Fields are split at `&`.
  - A field with no `=`, or with nothing after its `=`, is dropped.
  - `+` becomes a space, and percent-escapes are decoded as UTF-8, with
    invalid bytes replaced.
  - The values of a repeated name accumulate in input order.
  - Its partner is the form-urlencoded serializer of section 5.2 of the WHATWG
    URL Standard. The round trip through the two is proved.
- `RequestParser` (request.dfy): `parse_http_request`.
- `ResponseBuilder` (response.dfy): `create_http_response`, and a reader of
  the framing it produces. The reader is the builder's partner: reading back a
  built response yields exactly what went in.
- `Router` (router.dfy): the routing chain, as a pure function of the path,
  the query map and a `Site`. A `Site` holds the constant pages and the two
  service handlers, modelled as opaque functions.
- `ConnectionHandler` (connection.dfy): `handle_client`, as a method on a
  `Connection` class. The class has a scripted `recv` result, scripted
  failing writes, and a scripted failing `close`. It logs every call made on
  it, in order. The method is proved equal to a `Conversation` function, and
  the properties of the handler are lemmas about that function.

Being functions, the parser, the builder and the router are deterministic.

## Model

| member | source | states |
|---|---|---|
| Text.IndexOf | tcp_server.py:37 | the first occurrence of the separator, or none anywhere |
| Text.Split | tcp_server.py:37 | `split("\r\n")`: at least one piece; `JoinSplit` and `SplitJoin` make it the inverse of joining with the separator |
| Text.JoinSplit | tcp_server.py:37 | joining the pieces of a split with the separator gives back the text |
| Text.SplitJoin | tcp_server.py:37 | splitting a join of separator-free pieces gives back the pieces |
| Text.Tokens | tcp_server.py:43 | whitespace `split()`: every token is non-empty and holds no whitespace |
| Text.TokensSkipSpace | tcp_server.py:43 | leading whitespace does not change the tokens |
| Text.TokensOfWord | tcp_server.py:43 | a word followed by whitespace is the first token, and the rest is tokenized on its own |
| Text.NatRoundTrip | tcp_server.py:394 | reading the decimal a number is formatted as gives the number back |
| Text.IntRoundTrip | tcp_server.py:392 | the same for a possibly negative status code |
| RequestParser.FirstLine | tcp_server.py:37-42 | the request line is the longest prefix before the first CRLF |
| RequestParser.ParseRequest | tcp_server.py:27-58 | fewer than two tokens gives the empty triple; a returned path never holds `?` or `#`; no query name maps to an empty list; none where `urlparse` raises |
| RequestParser.IgnoresLaterLines | tcp_server.py:37-42 | for any request line without a CRLF, lone CRs and LFs included, the headers and body after the first CRLF do not change the result |
| RequestParser.ParseTwoTokenLine | tcp_server.py:37-58 | a request line of just `<verb> <target>`, with no version, gives the method and the path and decoded query of `urlparse(target)` |
| RequestParser.TokensOfRequestLine | tcp_server.py:43-49 | the method is the first token and the target the second |
| RequestParser.ParseRequestLine | tcp_server.py:37-58 | the result is the method plus the path and decoded query of `urlparse(target)`; further tokens (which may hold lone CRs) and later lines are ignored |
| RequestParser.ParseWellFormed | tcp_server.py:27-58 | `<verb> <path>?<query> <version>` gives exactly `(verb, path, parse_qs(query))`, the path not percent-decoded |
| RequestParser.UnpairedAuthorityRaises | tcp_server.py:52 | a target whose authority has one square bracket without the other raises |
| Url.StripLeading | tcp_server.py:52 | removes exactly the leading run of characters up to U+0020 |
| Url.SplitScheme | tcp_server.py:52 | a scheme is split off only at the first `:` and only when the text before it is a valid scheme |
| Url.SplitNetloc | tcp_server.py:52 | the authority after `//` runs up to the first `/`, `?` or `#` |
| Url.SplitPathQuery | tcp_server.py:52-53 | the path runs up to the first `?` or `#`; the query lies between a `?` and the first `#` after it |
| Url.CutParams | tcp_server.py:53 | `_splitparams`: the path kept is a prefix of the split path; `CutAtParams` and `KeptParamsMarks` say where it is cut |
| Url.CutAtParams | tcp_server.py:52-53 | a cut path stops at a `;` with no `/` after it |
| Url.KeptParamsMarks | tcp_server.py:52-53 | every `;` kept in the path has a `/` somewhere after it |
| Url.Parse | tcp_server.py:52-53 | a parsed path holds no `?` or `#`, and a parsed query holds no `#` |
| Url.OriginForm | tcp_server.py:52-53 | a target starting with one `/` has no scheme and no authority; its query comes from the `?`/`#` split, and its path is that split's path with the last segment's `;` parameters cut off |
| Url.OriginFormPath | tcp_server.py:52-53 | `path?query` and a bare path give back that path and that query |
| Url.AbsoluteForm | tcp_server.py:52-53 | `scheme://host/path?query` yields the path and the query |
| Url.UnpairedAuthorityFails | tcp_server.py:52 | an authority with exactly one of `[` and `]` makes parsing fail |
| Url.NoBracketsNoError | tcp_server.py:52 | in the model, a target without square brackets always parses (see `Url.Parse` under Left out for the NFKC check) |
| Url.ParamsDropped | tcp_server.py:53 | `;` parameters of the last segment are not part of the path |
| Url.CutLastParams | tcp_server.py:53 | parameters after the last `/` are cut at their first `;` |
| FormUrlEncoded.ParseField | tcp_server.py:56 | a field gives at most one pair, never one with an empty value |
| FormUrlEncoded.Unquote | tcp_server.py:56 | `unquote`: a non-empty text decodes to a non-empty text; `UnquotePlain` and `DecodeFormEncoded` fix its result |
| FormUrlEncoded.DecodeComponent | tcp_server.py:56 | `+` to space, then `unquote`: empty exactly for an empty component; a component with neither `+` nor `%` is kept verbatim |
| FormUrlEncoded.ParseQsl | tcp_server.py:56 | `parse_qsl`: at most one pair per `&`-separated field, and no pair with an empty value |
| FormUrlEncoded.Group | tcp_server.py:56 | `parse_qs`'s accumulation: no name maps to an empty list, nor to more values than there are pairs; `GroupValues` fixes the lists |
| FormUrlEncoded.ParseQs | tcp_server.py:56 | no name maps to an empty list, and no value is empty |
| FormUrlEncoded.GroupValues | tcp_server.py:56 | a name is present exactly when some pair carries it, and its list is exactly those pairs' values in input order |
| FormUrlEncoded.DecodeFormEncoded | tcp_server.py:56 | decoding a form-encoded component gives back the text, even with `+`, `%`, `&` or `=` in it |
| FormUrlEncoded.ParseSerialized | tcp_server.py:56 | parsing a serialized list of pairs with non-empty values gives the list back |
| FormUrlEncoded.ParseQsOfSerialized | tcp_server.py:56 | the map of a serialized list holds, for each name, its values in their input order |
| FormUrlEncoded.DropsBlankValue | tcp_server.py:56 | a field `name=` is dropped |
| FormUrlEncoded.DropsBareName | tcp_server.py:56 | a field without `=` is dropped |
| FormUrlEncoded.UnquotePlain | tcp_server.py:56 | text without `%` is left unchanged by unquoting |
| FormUrlEncoded.PlainQuery | tcp_server.py:56 | one plain field gives one name with one value |
| FormUrlEncoded.TwoPlainFields | tcp_server.py:56 | two plain fields give two pairs, in order |
| FormUrlEncoded.RepeatedName | tcp_server.py:56 | a name given twice keeps both values, in input order |
| Utf8.EncodeChar | tcp_server.py:394 | one to four bytes; one byte exactly for ASCII, and then that byte is the code point; otherwise every byte is at least 0x80 |
| Utf8.Encode | tcp_server.py:394 | `str.encode("utf-8")`: never fewer bytes than characters; `DecodeEncode` inverts it |
| Utf8.Decode | tcp_server.py:501 | strict `bytes.decode("utf-8")`: a decoded text re-encodes to exactly the given bytes |
| Utf8.ScanInverse | tcp_server.py:501 | the bytes one well-formed decoding step consumes are the encoding of the character it yields |
| Utf8.DecodesExactlyEncodings | tcp_server.py:501 | strict decoding succeeds exactly on the encodings of some text, so every other byte string is rejected |
| Utf8.DecodeReplace | tcp_server.py:56 | `unquote`'s `errors="replace"` decode: never more characters than bytes, and at least one for a non-empty input |
| Utf8.EncodeAppend | tcp_server.py:398 | encoding distributes over concatenation |
| Utf8.EncodedLengthAscii | tcp_server.py:394 | the byte count equals the character count exactly when every character is ASCII |
| Utf8.DecodeEncode | tcp_server.py:501 | strict decoding of an encoding gives back the text |
| Utf8.DecodeReplaceAgrees | tcp_server.py:501 | where strict decoding succeeds, the replacing decoder agrees with it |
| Utf8.DecodeReplaceEncode | tcp_server.py:56 | the replacing decoder also inverts the encoder |
| ResponseBuilder.SplitHead | tcp_server.py:391-397 | the header text splits on CRLF into the status line, the three field lines and the blank line |
| ResponseBuilder.StatusLine | tcp_server.py:392 | `HTTP/1.1 <code> <reason>` reads back as the same code and reason; it holds no CR when the reason holds none |
| ResponseBuilder.Head | tcp_server.py:391-397 | the header text is its four lines, each ended by CRLF, then the blank line |
| ResponseBuilder.BuildResponse | tcp_server.py:377-399 | `create_http_response`: reading the bytes back gives the code, the reason, the three fixed header fields and the body, when the reason holds no CR |
| ResponseBuilder.ReadFieldLines | tcp_server.py:393-396 | field lines read back as the same fields |
| ResponseBuilder.ContentLengthIsBodyBytes | tcp_server.py:394-398 | the declared Content-Length is the body's UTF-8 byte count; the response ends with exactly those bytes; the count is at least the character count, and equal to it exactly for an ASCII body |
| ResponseBuilder.DeclaresLength | tcp_server.py:394 | the fixed fields declare the length they were built with |
| Router.NotFoundPage | tcp_server.py:524-537 | the 404 page contains the path |
| Router.Route | tcp_server.py:511-539 | 200 "OK" exactly for the served paths; 404 "Not Found" exactly for the others, with the path in the body; only the service paths can fail |
| Router.FromHandler | tcp_server.py:518-521 | a service's page goes out unchanged with a 200 |
| Router.RoutingTable | tcp_server.py:515-522 | each routing-table entry gives its page, or its service's page, or its service's failure |
| Router.UnknownPath | tcp_server.py:523-539 | any other path gives 404 "Not Found", with the path inside the site's 404 text |
| Router.OtherRoutesIgnoreServices | tcp_server.py:515-539 | only the service paths depend on the query and on the services |
| ConnectionHandler.Connection.constructor | tcp_server.py:482-484 | a fresh socket has an empty call log and no write attempts |
| ConnectionHandler.Connection.Recv | tcp_server.py:496 | the read gives the scripted result and is logged |
| ConnectionHandler.Connection.SendAll | tcp_server.py:545 | a write succeeds unless its attempt is scripted to fail; it is logged either way |
| ConnectionHandler.Connection.Close | tcp_server.py:575 | the close is logged; it fails when scripted to |
| ConnectionHandler.Respond | tcp_server.py:540-578 | from the write on, the calls and the outcome are those of `Exchange` |
| ConnectionHandler.HandleClient | tcp_server.py:492-578 | the calls made on the socket and the outcome are exactly those of `Conversation` |
| ConnectionHandler.Prepare | tcp_server.py:496-539 | dropped exactly for an empty read; the 400 path exactly for non-UTF-8 bytes; the 500 path exactly when `urlparse` or a service raises; a routed response is a 200 or a 404, and a 200 exactly for a served path |
| ConnectionHandler.PrepareReceived | tcp_server.py:496-498 | a raising read goes to the 500 path; only an empty read is dropped |
| ConnectionHandler.Exchange | tcp_server.py:540-578 | after the read, the handler ends by an exception exactly when the bytes are not UTF-8 and the 400 write raises |
| ConnectionHandler.Conversation | tcp_server.py:492-578 | the read comes first, and an exception leaves the handler exactly when the 400 write raises |
| ConnectionHandler.CloseExactlyOnce | tcp_server.py:572-578 | on every path the read comes first; `close` is called exactly once, and last; at most two writes are made |
| ConnectionHandler.ExchangeClosesOnce | tcp_server.py:540-578 | after the read, every path ends with the one close, and every other call is a write |
| ConnectionHandler.EmptyReadWritesNothing | tcp_server.py:496-498 | a zero-byte read writes nothing |
| ConnectionHandler.DecodeFailureWritesBadRequest | tcp_server.py:549-558 | non-UTF-8 bytes get exactly the 400; the handler ends normally exactly when that write succeeds |
| ConnectionHandler.OtherFailureWritesInternalError | tcp_server.py:559-571 | a raising read, parse, service or routed write ends with an attempted 500 as the last write, and its failure is swallowed |
| ConnectionHandler.RoutedResponseSent | tcp_server.py:542-545 | the routed response is written first, and alone when the write succeeds; the outcome reports its code exactly then |
| ConnectionHandler.WritesOfExchange | tcp_server.py:540-571 | the responses handed to `sendall` on each path |

## Left out

- `main` (tcp_server.py:581-626) is not modelled. It binds, listens, accepts,
  and runs one daemon thread per connection: socket I/O and concurrency.
- The service handlers `handle_exchange_request` and `handle_movie_request`
  (tcp_server.py:61-374) are the opaque functions `Site.exchange` and
  `Site.movie` of the query map. Their HTTP calls, JSON and float formatting
  are outside the model.
- The HTML of the index, search and 404 pages is held as constants of
  `Site`. The 400 and 500 bodies are constants of `ConnectionHandler`.
- No `print` is modelled. A write to standard output is assumed never to
  raise.
- `recv(BUFFER_SIZE)` is one read whose result is a parameter. The 4096-byte
  truncation is not modelled.
- The branch `if not lines` (tcp_server.py:38-39) is dead code, because
  `split` always returns at least one piece. It is not modelled.
- Url.Parse: the bracketed-host checks of `urlsplit` are not modelled: the
  IPv6 and IPvFuture address check and the NFKC check of `_checknetloc`.
  `Parse` can return `Some` where those checks would raise `ValueError`.
- Url.Parse: the removal of tab, CR and LF from the URL is not modelled. A
  token from `split()` never contains those characters.
- Url.Parse follows CPython 3.12. Other Python versions differ in their
  leading-character stripping and in their bracket checks.
- Utf8.Decode accepts only Unicode scalar values. Dafny's `char` cannot hold
  the lone surrogates that Python strings can. So a service page holding a
  lone surrogate cannot be expressed either. In the source, `body.encode`
  (tcp_server.py:394) raises `UnicodeEncodeError` on such a page, and the
  handler answers with the 500 (tcp_server.py:559-571).
- ConnectionHandler.Connection.SendAll: a failing write is logged with the
  whole response. How much of it reached the peer is not modelled.
- ConnectionHandler.Prepare: a service handler that raises is routed to the
  500 path. In the source, a `UnicodeDecodeError` escaping a handler would
  reach the 400 clause. Both handlers catch every `Exception` themselves.
- The log records `Response` values. The bytes on the wire are
  `ResponseBuilder.BuildResponse` of them (`ConnectionHandler.Bytes`).
- ResponseBuilder.BuildResponse promises the read-back only for a reason
  phrase without CR. The server's reason phrases are constants, and none holds
  a CR.
- The response reader splits lines on CRLF only, the way the builder writes
  them. The leniency that section 2.2 of RFC 9112 allows to a general HTTP
  reader is not modelled.
