# HttpConnection negotiation, modelled in Dafny

`TechDivision\Http\HttpConnection::negotiate()` runs one HTTP/1.x exchange over
an accepted socket:

1. It reads the start-line, skipping one leading bare CRLF (section 4.1 of RFC 2616), and hands it to the parser.
2. It accumulates the header block line by line, up to and including the first bare CRLF, and hands it to the parser.
3. If the request carries `Content-Length`, it appends whole lines to the request body stream until the stream position reaches the `(int)` value of that header, then rewinds the stream.
4. It writes the response header string, copies the response body and closes the socket.
5. It turns any exception raised on the way into the exception message plus an end-of-line on the socket, followed by a close.

The model follows the source object by object:

- `Transport.Socket` is the connection socket. Its fields are the lines the peer sends (`input`), a read cursor, and a `trace` of every socket operation in order: read, write, copyStream and close.
- Each `char` of a line stands for one byte the peer sent, so `|line|` is `strlen($line)` and the body stream's `position` is the byte offset `ftell` reports.
- `Messages.Parser`, `Messages.Request` and `Messages.BodyStream` are the parser, the request it fills and the request's body stream. The body stream has content and a position. `fwrite` overwrites at the position, `ftell` reads it and `fseek(…, 0)` rewinds it.
- The parser's grammar is opaque. It is given by what it rejects (`rejectStartLine`, `rejectHeaders`, each giving the exception message) and by the header map an accepted block stores on the request (`headersOf`).
- `Http.HttpConnection` holds the socket and the parser.
  - `Negotiate` is the imperative model of `negotiate()`.
  - Its two `while` loops are `ReadHeaderBlock` and `ReadBody`, each with loop invariants.
  - Exceptions become `Outcome`/`Result` values that the caller propagates. This is what the try block does.
- `Protocol.Negotiation` describes one exchange as a pure function of the input lines, the collaborators and the body position. It gives the exception raised, the final cursor, the parser calls, the stored headers, the lines written to the body and whether the body was rewound.
  - `Protocol.Session` adds every socket operation in order.
  - `Negotiate` is proved to leave the socket, parser, request and body stream exactly as these functions say.
  - The lemmas in `Protocol` state what that means: which line reaches the parser, what the header block is, how the body is framed, and what goes on the wire on each path.

Modules: `Wrappers` (Option, Result, Outcome), `Wire` (CRLF, line concatenation, the in-place stream write, PHP's `(int)` cast), `Transport`, `Messages`, `Protocol` and `Http`.

### Behaviour worth noting

- The header block handed to `parseHeaders` includes its closing `"\r\n"` (lines 88-93). The loop appends every line it reads, the blank line included.
- Only one leading CRLF is skipped (lines 75-78). With two leading CRLFs, `parseStartLine` receives `"\r\n"`. The header loop then reads nothing, because `$line` already equals `"\r\n"`, and `parseHeaders` receives `''`.
- Section 14.13 of RFC 2616 requires a Content-Length value of 1*DIGIT. The `(int)` cast at line 101 instead turns a value such as `abc` into 0 and raises nothing. No body line is read, the body stream is rewound and the response is sent.
- The body loop reads whole lines. It can therefore write past the declared length, by less than the last line read.
- The doc comment of `negotiate()` (lines 51-56) promises a request instance as its result. The body (lines 57-124) has no `return` statement, so `negotiate()` returns nothing on every path; the model's `Negotiate` likewise has no result. The request is reachable only through `getParser()->getRequest()`.

## Model

| member | source | states |
|---|---|---|
| Http.HttpConnection.constructor | src/TechDivision/Http/HttpConnection.php:27-31 | the connection holds exactly the socket and the parser it is given |
| Http.HttpConnection.GetSocket | src/TechDivision/Http/HttpConnection.php:38-41 | returns the socket the connection was built with; `Negotiate` obtains its socket through it, as line 62 does |
| Http.HttpConnection.GetParser | src/TechDivision/Http/HttpConnection.php:46-49 | returns the parser the connection was built with; `Negotiate` obtains its parser through it, as line 61 does |
| Http.HttpConnection.ReadStartLine | src/TechDivision/Http/HttpConnection.php:64-78 | reads the line `StartLine` designates (one leading bare CRLF skipped), records exactly those reads, and fails with the disconnect error, having consumed all input, when the lines run out |
| Http.HttpConnection.ReadHeaderBlock | src/TechDivision/Http/HttpConnection.php:87-93 | the loop returns `HeaderBlock`'s block: the concatenation of the lines through the first bare CRLF, or `''` when the start-line is a bare CRLF; the cursor is just past it and the trace records exactly those reads; it fails with the disconnect error when no CRLF line comes |
| Http.HttpConnection.ReadBody | src/TechDivision/Http/HttpConnection.php:103-110 | the loop writes the concatenation of the lines it reads into the stream at its position and stops where `BodyStop` says; on completion the position is 0; when the input runs out first it fails, leaving the position just past what was written |
| Http.HttpConnection.ReceiveFromHeaderBlock | src/TechDivision/Http/HttpConnection.php:95-111 | the outcome and the new socket, parser, header and body state are those of `FromHeaderBlock` applied to the old state |
| Http.HttpConnection.ReceiveFromStartLine | src/TechDivision/Http/HttpConnection.php:80-111 | the outcome and the new state are those of `FromStartLine`: a rejected start-line stops before any further read |
| Http.HttpConnection.ReceiveRequest | src/TechDivision/Http/HttpConnection.php:59-111 | the try block's outcome and the new state are those of `Negotiation` applied to the old state |
| Http.HttpConnection.Respond | src/TechDivision/Http/HttpConnection.php:113-123 | the trace grows by exactly `Emission` of the try block's outcome: header string, body copy and close on success, message plus end-of-line and close on failure |
| Http.HttpConnection.Negotiate | src/TechDivision/Http/HttpConnection.php:57-124 | the socket trace grows by exactly `Session` (reads, then the response or the diagnostic, then one close); cursor, parser calls, stored headers, body content and body position are those `Negotiation` gives |
| Http.HeaderStep | src/TechDivision/Http/HttpConnection.php:88-93 | one turn of the header loop extends the block and the read trace by the line read, and moves the first-CRLF search forward unless that line is the CRLF |
| Http.BodyStep | src/TechDivision/Http/HttpConnection.php:103-108 | one turn of the body loop extends the written region and the read trace by the line read and leaves the loop's stopping point unchanged |
| Protocol.StartLine | src/TechDivision/Http/HttpConnection.php:65-78 | the start-line is one of the next two lines and the cursor stops just past it; it is the second line only when the first is a bare CRLF |
| Protocol.HeaderBlock | src/TechDivision/Http/HttpConnection.php:87-93 | the header loop only reads forward within the input, and when it reads anything the last line it reads is a bare CRLF |
| Protocol.FirstCrlf | src/TechDivision/Http/HttpConnection.php:88-93 | the index found is a bare CRLF line with no bare CRLF line before it; None means no line from there on is a bare CRLF |
| Protocol.BodyStop | src/TechDivision/Http/HttpConnection.php:103-108 | the body loop, when it stops, stops within the input and no earlier than where it started |
| Protocol.Negotiation | src/TechDivision/Http/HttpConnection.php:59-111 | the try block never moves the cursor backwards or past the input |
| Protocol.FromStartLine | src/TechDivision/Http/HttpConnection.php:80-111 | the phases from parseStartLine on only read forward within the input |
| Protocol.FromHeaderBlock | src/TechDivision/Http/HttpConnection.php:96-111 | the phases from parseHeaders on only read forward within the input |
| Protocol.AfterReadsOnly | src/TechDivision/Http/HttpConnection.php:64-96 | a phase that stores no headers and writes no body changes only the cursor, the read trace and the parser calls |
| Protocol.AfterThen | src/TechDivision/Http/HttpConnection.php:64-96 | a phase that only reads lines and calls the parser, followed by the remaining phases, has the effect of the remaining phases with its parser calls first |
| Protocol.StartLineSkipsOneCrlf | src/TechDivision/Http/HttpConnection.php:65-78 | the start-line is the first line unless that is a bare CRLF, and then it is the second line whatever it is; it is missing exactly when the input ends first |
| Protocol.StartLineReachesParser | src/TechDivision/Http/HttpConnection.php:65-80 | the first parser call is parseStartLine of that line; without a start-line nothing is parsed and the exchange fails with the disconnect error |
| Protocol.HeaderBlockThroughBlankLine | src/TechDivision/Http/HttpConnection.php:87-96 | the block is empty iff the start-line is a bare CRLF (and then nothing is read); otherwise it is the concatenation of the lines through the first bare CRLF, none before it is a CRLF, and it ends in CRLF; without such a line it fails |
| Protocol.BodyFramingBounds | src/TechDivision/Http/HttpConnection.php:101-108 | the lines read bring the position to at least N and overshoot by less than the last line; none are read iff N is already reached; the loop fails only when all the input falls short of N |
| Protocol.HeadersStoredAfterBlock | src/TechDivision/Http/HttpConnection.php:96-111 | once parseHeaders has stored headers, the rest of the exchange is fixed by the header block and the cursor after it |
| Protocol.NoContentLengthNoBody | src/TechDivision/Http/HttpConnection.php:99-111 | without Content-Length nothing is read after the header block, the body is neither written nor rewound, and nothing fails |
| Protocol.ContentLengthFramesBody | src/TechDivision/Http/HttpConnection.php:99-111 | with Content-Length the body receives exactly the lines read after the header block; it completes iff it is rewound; it then holds at least N and less than N plus the last line, and reads nothing iff N is already reached; otherwise the input ran out below N |
| Protocol.FramesBodyFrom | src/TechDivision/Http/HttpConnection.php:99-110 | from the cursor after the header block: the body lines are exactly those read, completion iff rewind, the position bounds, and failure only when the input falls short |
| Protocol.FreshBodyHoldsBodyLines | src/TechDivision/Http/HttpConnection.php:103-110 | into an empty body at position 0 the exchange writes exactly the lines of the body loop; on completion the body holds at least the declared length and is at position 0 |
| Protocol.NonNumericContentLengthReadsNoBody | src/TechDivision/Http/HttpConnection.php:101-110 | a Content-Length with no leading integer reads no body line, rewinds the body and raises nothing |
| Protocol.ParseFailureStopsLaterPhases | src/TechDivision/Http/HttpConnection.php:65-118 | parser calls are parseStartLine then parseHeaders, at most once each; a rejected parse raises that parser's message and stores no headers (see `Messages.Parser.ParseHeaders` under "Left out"), reads nothing further and leaves the body alone; success means both parses happened |
| Protocol.Emission | src/TechDivision/Http/HttpConnection.php:113-123 | what follows the reads starts with a write and ends with the close; it copies the response body, as its second of three operations, exactly when nothing was raised |
| Protocol.Session | src/TechDivision/Http/HttpConnection.php:57-124 | every negotiate call ends with the close as its last socket operation |
| Protocol.EmissionOnWire | src/TechDivision/Http/HttpConnection.php:113-123 | after the reads: the response header string and body on success, the message and end-of-line on failure with no stream copied; exactly one close, as the last operation |
| Protocol.ReadsThenEmission | src/TechDivision/Http/HttpConnection.php:59-123 | reads followed by the emission send only what the emission sends, close once at the end, and keep every read before the first write |
| Protocol.SuccessWritesResponseThenCloses | src/TechDivision/Http/HttpConnection.php:113-118 | on success the peer receives the header string followed by the body, every read comes before, and close is called once, last |
| Protocol.FailureWritesDiagnosticThenCloses | src/TechDivision/Http/HttpConnection.php:120-123 | on failure the peer receives only the exception message and end-of-line, no stream is copied, every read comes before, and close is called once, last |
| Protocol.LeadingCrlfExample | src/TechDivision/Http/HttpConnection.php:75-96 | for `"\r\n"`, `GET / HTTP/1.1\r\n`, `"\r\n"` the parser receives the request line, not the empty line, and the header block `"\r\n"` |
| Protocol.NonNumericExample | src/TechDivision/Http/HttpConnection.php:99-118 | `Content-Length: abc` reads no body and the response is sent |
| Wire.Concat | src/TechDivision/Http/HttpConnection.php:92 | the accumulated string is at least as long as the last line appended |
| Wire.ConcatEndsWithLast | src/TechDivision/Http/HttpConnection.php:92 | the accumulated string ends with the last line appended |
| Wire.PhpInt | src/TechDivision/Http/HttpConnection.php:101 | the modelled cast is non-zero only for a value with a leading integer, and negative only when that integer has a minus sign |
| Wire.SkipSpace | src/TechDivision/Http/HttpConnection.php:101 | the modelled cast's whitespace skip drops only whitespace, and what remains does not start with whitespace |
| Wire.LeadingDigits | src/TechDivision/Http/HttpConnection.php:101 | the modelled cast reads the longest all-digit prefix |
| Wire.NonNumericCastsToZero | src/TechDivision/Http/HttpConnection.php:101 | the modelled cast of a value with no leading integer is 0 (see `Wire.PhpInt` under "Left out") |
| Wire.PhpIntOfDecimal | src/TechDivision/Http/HttpConnection.php:101 | the modelled cast of a decimal numeral followed by a non-digit is the number it spells (exponent forms are out of scope, see `Wire.PhpInt` under "Left out") |
| Wire.PhpIntOfDigits | src/TechDivision/Http/HttpConnection.php:101 | the modelled cast of a value starting with a digit is the value of its leading digits (see `Wire.PhpInt` under "Left out") |
| Wire.Overwrite | src/TechDivision/Http/HttpConnection.php:107 | an fwrite at the position grows the stream only past its end, to the position plus the data written |
| Wire.OverwritePlaces | src/TechDivision/Http/HttpConnection.php:107 | fwrite keeps the bytes before the position, places the data at it and keeps any bytes after it |
| Wire.OverwriteTwice | src/TechDivision/Http/HttpConnection.php:103-108 | two consecutive fwrites equal one fwrite of their concatenation |
| Wire.OverwriteNothing | src/TechDivision/Http/HttpConnection.php:107 | writing nothing leaves the stream's content unchanged |
| Wire.OverwriteFresh | src/TechDivision/Http/HttpConnection.php:107 | writing into an empty stream at 0 leaves exactly the data written |
| Transport.Socket.ReadLine | src/TechDivision/Http/HttpConnection.php:65 | the next line is returned and recorded as a read; at the end of input a disconnect error is raised and nothing changes |
| Transport.ReadsCompose | src/TechDivision/Http/HttpConnection.php:65-105 | reading one range of lines and then the next records the reads of both ranges together |
| Transport.TraceCompose | src/TechDivision/Http/HttpConnection.php:65-105 | the same, after any earlier trace |
| Transport.ReadsThenOps | src/TechDivision/Http/HttpConnection.php:65-123 | reads put no bytes on the wire and close nothing |
| Transport.ReadsBeforeOps | src/TechDivision/Http/HttpConnection.php:65-123 | in reads followed by other operations, the reads come first and the others follow unchanged |
| Transport.Socket.Write | src/TechDivision/Http/HttpConnection.php:114 | appends the write of the data to the trace |
| Transport.Socket.CopyStream | src/TechDivision/Http/HttpConnection.php:116 | appends the copy of the stream to the trace |
| Transport.Socket.Close | src/TechDivision/Http/HttpConnection.php:118 | appends the close to the trace |
| Messages.BodyStream.Write | src/TechDivision/Http/HttpConnection.php:107 | overwrites at the position and advances the position by the length written |
| Messages.BodyStream.Tell | src/TechDivision/Http/HttpConnection.php:103 | ftell reports a position within the stream |
| Messages.BodyStream.Rewind | src/TechDivision/Http/HttpConnection.php:110 | sets the position to 0 |
| Messages.Request.HasHeader | src/TechDivision/Http/HttpConnection.php:99 | true exactly when the request stores a value under the name |
| Messages.Request.GetHeader | src/TechDivision/Http/HttpConnection.php:101 | the value returned is the one the request stores under the name |
| Messages.Request.GetBodyStream | src/TechDivision/Http/HttpConnection.php:103 | returns the request's own body stream |
| Messages.Parser.ParseStartLine | src/TechDivision/Http/HttpConnection.php:80 | records the call and raises a parse error with the parser's message exactly when the line is rejected |
| Messages.Parser.ParseHeaders | src/TechDivision/Http/HttpConnection.php:96 | records the call; raises a parse error exactly when the block is rejected, else stores the block's headers on the request |
| Messages.Parser.GetRequest | src/TechDivision/Http/HttpConnection.php:99 | returns the parser's request |
| Messages.Parser.GetResponse | src/TechDivision/Http/HttpConnection.php:114 | returns the parser's response |

## Left out

- The real socket is not modelled: blocking reads, copyStream block sizes, timeouts and partial lines. The socket is the sequence of lines the peer sends, and a read past the last line fails as a disconnect does.
- Failures of `write`, `copyStream` and `close` are not modelled; these operations always succeed. As a result the response is written after the try block's outcome is known, which under that assumption is the same order as in the source.
- Failures of `getResponse()`, `getHeaderString()`, `getBodyStream()`, `getRequest()`, `hasHeader()` and `getHeader()` are not modelled either; they always return. In the source an exception raised while computing line 114's argument would take the catch path with no header string written; the model does not cover that path.
- `ReadBody` obtains the request body stream once through `getBodyStream()`, where lines 103, 107 and 110 call it each time; the getter returns the same stream every time.
- The request body stream is assumed seekable and not opened in append mode, so that `fwrite` overwrites at the position `ftell` reports. How `getBodyStream()` opens its stream is not part of this model.
- Messages.BodyStream.Valid: the position is assumed to lie within the content, and `Negotiate` requires it. PHP's `fseek` also allows a position past the end, after which `fwrite` fills the gap with NUL bytes; a body stream in that state is not modelled.
- Http.HttpConnection.Negotiate: "close is called exactly once" is proved only for this no-failure case. If `close()` at line 118 threw, the catch block would write and close a second time.
- Messages.Parser.ParseHeaders: a rejected header block is assumed to store no headers on the request. The parser behind line 96 is not part of this model; one that stores some headers line by line and then throws at a malformed line would leave those headers on the request, which the model (and `Negotiate`'s unchanged headers on the parse-failure paths) does not capture.
- The start-line and header grammar inside `parseStartLine`/`parseHeaders` is not modelled. How the request stores headers (for example, case-insensitive names) is not modelled either. The parser is given by what it rejects and by the header map it stores.
- Wire.PhpInt: models `(int)` as optional leading whitespace, an optional sign and leading decimal digits, else 0. It does not model PHP's reading of exponent and fraction forms (`1e3`), saturation at `PHP_INT_MAX`, or 64-bit wrap-around.
- Character encodings are not modelled: a line is a sequence of bytes, one `char` per byte, so a multi-byte character counts as several `char`s, as `strlen` counts it.
- `PHP_EOL` is `"\n"`, as on the platforms this server runs on. The Windows `"\r\n"` is not modelled.
- PHP's loose `!=` at line 88 is modelled as string inequality. PHP never treats `"\r\n"` as a numeric string, so the two agree.
- Concurrency is not modelled: each connection runs one synchronous exchange over objects it owns.
- The response body stream's position and content are not modelled. copyStream is recorded with the response body it relays.
- `AbstractAdapter` (authentication configuration holder) is not part of this model. Its accessors only return stored values.
