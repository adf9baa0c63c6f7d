/**
 * What one call of HttpConnection::negotiate does, as a function of the lines
 * the peer sends and of the collaborators' behaviour. `HttpConnection.Negotiate`
 * is proved to produce exactly this; the lemmas below state what it means.
 */
module Protocol {
  import opened Wrappers
  import opened Wire
  import opened Transport
  import opened Messages

  /** The behaviour of everything negotiate calls into. */
  datatype Env = Env(
    eofMessage: string,
    rejectStartLine: string -> Option<string>,
    rejectHeaders: string -> Option<string>,
    headersOf: string -> map<string, string>,
    response: Response)

  /** A value read from the socket and the cursor after it, or a read past the last line. */
  datatype LineRead<T> = Got(value: T, next: nat) | Exhausted

  /**
   * The result of one exchange: the exception raised, if any; the socket
   * cursor afterwards; the parser calls made; the header map stored on the
   * request, if parseHeaders succeeded; the lines written into the body
   * stream; and whether the body stream was rewound.
   */
  datatype Exchange = Exchange(
    failure: Option<Error>,
    cursor: nat,
    calls: seq<Call>,
    headers: Option<map<string, string>>,
    bodyLines: seq<string>,
    rewound: bool)

  /** HttpConnection.php lines 65-78: the line handed to parseStartLine, one leading bare CRLF skipped. */
  function StartLine(input: seq<string>, c: nat): (r: LineRead<string>)
    requires c <= |input|
    ensures r.Got? ==> c < r.next <= |input| && r.next <= c + 2 && r.value == input[r.next - 1]
    ensures r.Got? && r.next == c + 2 ==> input[c] == CRLF
  {
    if c == |input| then Exhausted
    else if input[c] != CRLF then Got(input[c], c + 1)
    else if c + 1 == |input| then Exhausted
    else Got(input[c + 1], c + 2)
  }

  /** The index of the first bare CRLF line at or after `i`. */
  function FirstCrlf(input: seq<string>, i: nat): (r: Option<nat>)
    requires i <= |input|
    decreases |input| - i
    ensures r.Some? ==> i <= r.value < |input| && input[r.value] == CRLF
    ensures r.Some? ==> forall k :: i <= k < r.value ==> input[k] != CRLF
    ensures r.None? ==> forall k :: i <= k < |input| ==> input[k] != CRLF
  {
    if i == |input| then None
    else if input[i] == CRLF then Some(i)
    else FirstCrlf(input, i + 1)
  }

  /**
   * HttpConnection.php lines 87-93: the header block, given the start-line value still held in
   * `$line` and the cursor after it.
   */
  function HeaderBlock(input: seq<string>, line: string, c: nat): (r: LineRead<string>)
    requires c <= |input|
    ensures r.Got? ==> c <= r.next <= |input|
    ensures r.Got? && r.next > c ==> input[r.next - 1] == CRLF
  {
    if line == CRLF then Got("", c)
    else match FirstCrlf(input, c)
      case None => Exhausted
      case Some(k) => Got(Concat(input[c..k + 1]), k + 1)
  }

  /**
   * HttpConnection.php lines 103-108: the cursor at which the body loop stops, reading from `i`
   * with the stream at position `pos`, for a Content-Length of `n`; None
   * when the peer's lines run out first.
   */
  function BodyStop(input: seq<string>, i: nat, pos: int, n: int): (r: Option<nat>)
    requires i <= |input|
    decreases |input| - i
    ensures r.Some? ==> i <= r.value <= |input|
  {
    if n <= pos then Some(i)
    else if i == |input| then None
    else BodyStop(input, i + 1, pos + |input[i]|, n)
  }

  /** HttpConnection.php lines 61-111: reading and parsing one request from cursor `c0`, body stream at `pos`. */
  function Negotiation(input: seq<string>, c0: nat, env: Env, pos: nat): (x: Exchange)
    requires c0 <= |input|
    ensures c0 <= x.cursor <= |input|
  {
    match StartLine(input, c0)
    case Exhausted => Exchange(Some(TransportError(env.eofMessage)), |input|, [], None, [], false)
    case Got(line, c1) => FromStartLine(input, line, c1, env, pos)
  }

  /** HttpConnection.php lines 80-111: from the call to parseStartLine, the cursor just past the start-line. */
  function FromStartLine(input: seq<string>, line: string, c1: nat, env: Env, pos: nat): (x: Exchange)
    requires c1 <= |input|
    ensures c1 <= x.cursor <= |input|
  {
    var calls := [Call.ParseStartLine(line)];
    if env.rejectStartLine(line).Some? then
      Exchange(Some(ParseError(env.rejectStartLine(line).value)), c1, calls, None, [], false)
    else
      match HeaderBlock(input, line, c1)
      case Exhausted => Exchange(Some(TransportError(env.eofMessage)), |input|, calls, None, [], false)
      case Got(block, c2) =>
        var y := FromHeaderBlock(input, block, c2, env, pos);
        y.(calls := calls + y.calls)
  }

  /** HttpConnection.php lines 96-111: from the call to parseHeaders, the cursor just past the header block. */
  function FromHeaderBlock(input: seq<string>, block: string, c2: nat, env: Env, pos: nat): (x: Exchange)
    requires c2 <= |input|
    ensures c2 <= x.cursor <= |input|
  {
    var calls := [Call.ParseHeaders(block)];
    if env.rejectHeaders(block).Some? then
      Exchange(Some(ParseError(env.rejectHeaders(block).value)), c2, calls, None, [], false)
    else
      var hs := env.headersOf(block);
      if CONTENT_LENGTH !in hs then
        Exchange(None, c2, calls, Some(hs), [], false)
      else
        match BodyStop(input, c2, pos, PhpInt(hs[CONTENT_LENGTH]))
        case None => Exchange(Some(TransportError(env.eofMessage)), |input|, calls, Some(hs), input[c2..], false)
        case Some(j) => Exchange(None, j, calls, Some(hs), input[c2..j], true)
  }

  /** What the try block hands to the catch block: the exception raised, if any. */
  function OutcomeOf(x: Exchange): Outcome<Error>
  {
    if x.failure.Some? then Fail(x.failure.value) else Pass
  }

  /**
   * What the socket, the parser and the request hold: the read cursor, the
   * socket trace, the parser calls, the request headers and the body stream.
   */
  datatype State = State(
    cursor: nat,
    trace: seq<Op>,
    calls: seq<Call>,
    headers: map<string, string>,
    content: seq<char>,
    position: nat)

  /** The state after an exchange `x` that started in `before` over the peer's lines `input`. */
  function After(x: Exchange, input: seq<string>, before: State): State
    requires before.cursor <= x.cursor <= |input| && before.position <= |before.content|
  {
    State(
      x.cursor,
      before.trace + ReadOps(input[before.cursor..x.cursor]),
      before.calls + x.calls,
      if x.headers.Some? then x.headers.value else before.headers,
      Overwrite(before.content, before.position, Concat(x.bodyLines)),
      if x.rewound then 0 else before.position + |Concat(x.bodyLines)|)
  }

  /** A phase that writes no body and stores no headers changes only the cursor, the trace and the calls. */
  lemma AfterReadsOnly(first: Exchange, input: seq<string>, before: State)
    requires before.cursor <= first.cursor <= |input| && before.position <= |before.content|
    requires first.headers == None && first.bodyLines == [] && !first.rewound
    ensures After(first, input, before)
            == before.(cursor := first.cursor,
                       trace := before.trace + ReadOps(input[before.cursor..first.cursor]),
                       calls := before.calls + first.calls)
  {
    assert Concat(first.bodyLines) == "";
    OverwriteNothing(before.content, before.position);
  }

  /**
   * A phase that only reads lines and calls the parser, followed by the rest
   * of the exchange, is the rest of the exchange with its calls prefixed.
   */
  lemma AfterThen(first: Exchange, rest: Exchange, input: seq<string>, before: State)
    requires before.cursor <= first.cursor <= rest.cursor <= |input| && before.position <= |before.content|
    requires first.headers == None && first.bodyLines == [] && !first.rewound
    ensures After(rest, input, After(first, input, before))
            == After(rest.(calls := first.calls + rest.calls), input, before)
  {
    var mid := After(first, input, before);
    AfterReadsOnly(first, input, before);
    TraceCompose(before.trace, input, before.cursor, first.cursor, rest.cursor);
    var left := After(rest, input, mid);
    var right := After(rest.(calls := first.calls + rest.calls), input, before);
    assert left.trace == right.trace;
    assert left.calls == right.calls;
    assert left.content == right.content && left.position == right.position;
  }

  /** HttpConnection.php lines 113-123: what is written after the reads, ending with the close. */
  function Emission(x: Exchange, response: Response): (e: seq<Op>)
    ensures |e| >= 2 && e[0].Write? && e[|e| - 1] == Op.Close
    ensures x.failure.None? <==> (|e| == 3 && e[1] == Op.CopyStream(response.body))
  {
    match x.failure
    case None => [Op.Write(response.headerString), Op.CopyStream(response.body), Op.Close]
    case Some(e) => [Op.Write(e.message + EOL), Op.Close]
  }

  /** Every socket operation of one negotiate call, in order. */
  function Session(input: seq<string>, c0: nat, env: Env, pos: nat): (s: seq<Op>)
    requires c0 <= |input|
    ensures |s| >= 2 && s[|s| - 1] == Op.Close
  {
    var x := Negotiation(input, c0, env, pos);
    ReadOps(input[c0..x.cursor]) + Emission(x, env.response)
  }

  // ---------------------------------------------------------------------
  // Start-line

  /**
   * The line handed to parseStartLine is the first line unless that is a bare
   * CRLF, in which case it is the second line, whatever it is: only one
   * leading CRLF is skipped. Running out of lines first is a transport error.
   */
  lemma StartLineSkipsOneCrlf(input: seq<string>, c0: nat)
    requires c0 <= |input|
    ensures c0 < |input| && input[c0] != CRLF ==> StartLine(input, c0) == Got(input[c0], c0 + 1)
    ensures c0 + 1 < |input| && input[c0] == CRLF ==> StartLine(input, c0) == Got(input[c0 + 1], c0 + 2)
    ensures StartLine(input, c0).Exhausted? <==> c0 == |input| || (input[c0] == CRLF && c0 + 1 == |input|)
  {
  }

  /** The first parser call is parseStartLine of that line; without it nothing is parsed. */
  lemma StartLineReachesParser(input: seq<string>, c0: nat, env: Env, pos: nat)
    requires c0 <= |input|
    ensures var x := Negotiation(input, c0, env, pos);
      match StartLine(input, c0)
      case Got(line, _) => x.calls != [] && x.calls[0] == Call.ParseStartLine(line)
      case Exhausted =>
        x.calls == [] && x.failure == Some(TransportError(env.eofMessage)) && x.cursor == |input|
  {
  }

  // ---------------------------------------------------------------------
  // Header block

  /**
   * The header block is the concatenation of the lines read after the
   * start-line up to and including the first bare CRLF; it is empty exactly
   * when the start-line value is itself a bare CRLF, and then nothing is read.
   */
  lemma {:induction false} HeaderBlockThroughBlankLine(input: seq<string>, line: string, c: nat)
    requires c <= |input|
    ensures match HeaderBlock(input, line, c)
      case Exhausted =>
        line != CRLF && forall k :: c <= k < |input| ==> input[k] != CRLF
      case Got(block, next) =>
        && (block == "" <==> line == CRLF)
        && (line == CRLF ==> next == c)
        && (line != CRLF ==>
              && c < next <= |input|
              && block == Concat(input[c..next])
              && input[next - 1] == CRLF
              && (forall k :: c <= k < next - 1 ==> input[k] != CRLF)
              && block[|block| - 2..] == CRLF)
  {
    if line != CRLF {
      match FirstCrlf(input, c)
      case None =>
      case Some(k) =>
        var lines := input[c..k + 1];
        assert lines[|lines| - 1] == CRLF;
        ConcatEndsWithLast(lines);
    }
  }

  // ---------------------------------------------------------------------
  // Body framing

  /**
   * The body loop stops as soon as the written position reaches N: the lines
   * it reads bring the position to at least N, and all but the last leave it
   * below N, so the overshoot is less than the last line. It reads nothing
   * when N is already reached, and fails only when the peer's lines together
   * fall short of N.
   */
  lemma {:induction false} BodyFramingBounds(input: seq<string>, i: nat, pos: int, n: int)
    requires i <= |input|
    decreases |input| - i
    ensures match BodyStop(input, i, pos, n)
      case Some(j) =>
        && pos + |Concat(input[i..j])| >= n
        && (j > i ==> pos + |Concat(input[i..j])| < n + |input[j - 1]|)
        && (n <= pos <==> j == i)
      case None =>
        pos + |Concat(input[i..])| < n
  {
    if n <= pos {
      assert input[i..i] == [];
    } else if i == |input| {
      assert input[i..] == [];
    } else {
      BodyFramingBounds(input, i + 1, pos + |input[i]|, n);
      match BodyStop(input, i + 1, pos + |input[i]|, n)
      case Some(j) =>
        assert input[i..j] == [input[i]] + input[i + 1..j];
        ConcatCons(input[i], input[i + 1..j]);
      case None =>
        assert input[i..] == [input[i]] + input[i + 1..];
        ConcatCons(input[i], input[i + 1..]);
    }
  }

  /** The block and the cursor after it, when parseHeaders was reached. */
  function HeaderEnd(input: seq<string>, c0: nat): LineRead<string>
    requires c0 <= |input|
  {
    match StartLine(input, c0)
    case Exhausted => Exhausted
    case Got(line, c1) => HeaderBlock(input, line, c1)
  }

  /**
   * Once parseHeaders has stored a header map, the rest of the exchange is
   * decided by the header block and the cursor after it alone.
   */
  lemma HeadersStoredAfterBlock(input: seq<string>, c0: nat, env: Env, pos: nat)
    requires c0 <= |input|
    requires Negotiation(input, c0, env, pos).headers.Some?
    ensures HeaderEnd(input, c0).Got?
    ensures var x := Negotiation(input, c0, env, pos);
      x == FromHeaderBlock(input, HeaderEnd(input, c0).value, HeaderEnd(input, c0).next, env, pos).(calls := x.calls)
  {
  }

  /**
   * Without a Content-Length header nothing is read after the header block,
   * the body stream is neither written nor rewound, and nothing fails.
   */
  lemma NoContentLengthNoBody(input: seq<string>, c0: nat, env: Env, pos: nat)
    requires c0 <= |input|
    requires Negotiation(input, c0, env, pos).headers.Some?
    requires CONTENT_LENGTH !in Negotiation(input, c0, env, pos).headers.value
    ensures var x := Negotiation(input, c0, env, pos);
      && HeaderEnd(input, c0).Got?
      && x.cursor == HeaderEnd(input, c0).next
      && x.failure == None && x.bodyLines == [] && !x.rewound
  {
    HeadersStoredAfterBlock(input, c0, env, pos);
  }

  /** Body framing from the cursor after the header block, once headers with a Content-Length are stored. */
  lemma FramesBodyFrom(input: seq<string>, block: string, c2: nat, env: Env, pos: nat)
    requires c2 <= |input|
    requires FromHeaderBlock(input, block, c2, env, pos).headers.Some?
    requires CONTENT_LENGTH in FromHeaderBlock(input, block, c2, env, pos).headers.value
    ensures var y := FromHeaderBlock(input, block, c2, env, pos);
      var n := PhpInt(y.headers.value[CONTENT_LENGTH]);
      var written := pos + |Concat(y.bodyLines)|;
      && y.bodyLines == input[c2..y.cursor]
      && (y.failure == None <==> y.rewound)
      && (y.rewound ==> written >= n)
      && (y.rewound && y.bodyLines != [] ==> written < n + |y.bodyLines[|y.bodyLines| - 1]|)
      && (y.rewound ==> (y.bodyLines == [] <==> n <= pos))
      && (!y.rewound ==> written < n && y.cursor == |input| && y.failure == Some(TransportError(env.eofMessage)))
  {
    var y := FromHeaderBlock(input, block, c2, env, pos);
    var calls := [Call.ParseHeaders(block)];
    var hs := env.headersOf(block);
    var n := PhpInt(hs[CONTENT_LENGTH]);
    BodyFramingBounds(input, c2, pos, n);
    match BodyStop(input, c2, pos, n)
    case None =>
      assert y == Exchange(Some(TransportError(env.eofMessage)), |input|, calls, Some(hs), input[c2..], false);
      assert input[c2..] == input[c2..|input|];
    case Some(j) =>
      assert y == Exchange(None, j, calls, Some(hs), input[c2..j], true);
  }

  /**
   * With a Content-Length header, the lines written into the body are exactly
   * those read after the header block, and once the loop completes the
   * position written to (from `pos`) is at least N and overshoots by less
   * than the last line; the stream is then rewound.
   */
  lemma ContentLengthFramesBody(input: seq<string>, c0: nat, env: Env, pos: nat)
    requires c0 <= |input|
    requires Negotiation(input, c0, env, pos).headers.Some?
    requires CONTENT_LENGTH in Negotiation(input, c0, env, pos).headers.value
    ensures var x := Negotiation(input, c0, env, pos);
      var n := PhpInt(x.headers.value[CONTENT_LENGTH]);
      var written := pos + |Concat(x.bodyLines)|;
      && HeaderEnd(input, c0).Got?
      && x.bodyLines == input[HeaderEnd(input, c0).next..x.cursor]
      && (x.failure == None <==> x.rewound)
      && (x.rewound ==> written >= n)
      && (x.rewound && x.bodyLines != [] ==> written < n + |x.bodyLines[|x.bodyLines| - 1]|)
      && (x.rewound ==> (x.bodyLines == [] <==> n <= pos))
      && (!x.rewound ==> written < n && x.cursor == |input| && x.failure == Some(TransportError(env.eofMessage)))
  {
    HeadersStoredAfterBlock(input, c0, env, pos);
    var end := HeaderEnd(input, c0);
    FramesBodyFrom(input, end.value, end.next, env, pos);
  }

  /**
   * A Content-Length with no leading integer (`abc`) casts to 0: no body line
   * is read, the stream is rewound and no exception is raised.
   */
  lemma NonNumericContentLengthReadsNoBody(input: seq<string>, c0: nat, env: Env, pos: nat)
    requires c0 <= |input|
    requires Negotiation(input, c0, env, pos).headers.Some?
    requires CONTENT_LENGTH in Negotiation(input, c0, env, pos).headers.value
    requires !StartsNumeric(Negotiation(input, c0, env, pos).headers.value[CONTENT_LENGTH])
    ensures var x := Negotiation(input, c0, env, pos);
      && x.failure == None && x.bodyLines == [] && x.rewound
      && x.cursor == HeaderEnd(input, c0).next
  {
    var x := Negotiation(input, c0, env, pos);
    HeadersStoredAfterBlock(input, c0, env, pos);
    NonNumericCastsToZero(x.headers.value[CONTENT_LENGTH]);
    var c2 := HeaderEnd(input, c0).next;
    assert input[c2..c2] == [];
  }

  /**
   * Into a fresh request body (empty, at position 0) the exchange writes
   * exactly the lines of its body loop; when the loop completes the body
   * holds at least the declared length and is rewound to its start.
   */
  lemma FreshBodyHoldsBodyLines(input: seq<string>, env: Env, before: State)
    requires before.cursor <= |input| && before.content == [] && before.position == 0
    ensures var x := Negotiation(input, before.cursor, env, 0);
      var after := After(x, input, before);
      && after.content == Concat(x.bodyLines)
      && (x.headers.Some? && CONTENT_LENGTH in x.headers.value && x.failure == None ==>
            && after.position == 0
            && |after.content| >= PhpInt(x.headers.value[CONTENT_LENGTH]))
  {
    var x := Negotiation(input, before.cursor, env, 0);
    OverwriteFresh(Concat(x.bodyLines));
    if x.headers.Some? && CONTENT_LENGTH in x.headers.value {
      ContentLengthFramesBody(input, before.cursor, env, 0);
    }
  }

  // ---------------------------------------------------------------------
  // Phase order and failures

  /**
   * The parser is called in a fixed order, start-line then header block, and
   * a rejected start-line or header block stops every later phase: nothing
   * more is read, no headers are stored and the body is untouched.
   */
  lemma ParseFailureStopsLaterPhases(input: seq<string>, c0: nat, env: Env, pos: nat)
    requires c0 <= |input|
    ensures var x := Negotiation(input, c0, env, pos);
      && |x.calls| <= 2
      && (|x.calls| >= 1 ==> x.calls[0] == Call.ParseStartLine(StartLine(input, c0).value))
      && (|x.calls| == 2 ==> x.calls[1] == Call.ParseHeaders(HeaderEnd(input, c0).value))
      && (x.failure.Some? && x.failure.value.ParseError? ==>
            && x.headers == None && x.bodyLines == [] && !x.rewound
            && (|x.calls| == 1 ==>
                  && x.cursor == StartLine(input, c0).next
                  && env.rejectStartLine(StartLine(input, c0).value) == Some(x.failure.value.message))
            && (|x.calls| == 2 ==>
                  && x.cursor == HeaderEnd(input, c0).next
                  && env.rejectHeaders(HeaderEnd(input, c0).value) == Some(x.failure.value.message)))
      && (x.failure.None? ==> |x.calls| == 2 && x.headers.Some?)
  {
  }

  // ---------------------------------------------------------------------
  // What goes on the wire

  /** The operations after the reads: the bytes they send and the closes they make. */
  lemma EmissionOnWire(x: Exchange, response: Response)
    ensures var e := Emission(x, response);
      && CloseCount(e) == 1 && e[|e| - 1] == Op.Close
      && (forall k :: 0 <= k < |e| ==> !e[k].Read?)
      && (x.failure.None? ==> Output(e) == response.headerString + response.body)
      && (x.failure.Some? ==>
            && Output(e) == x.failure.value.message + EOL
            && forall k :: 0 <= k < |e| ==> !e[k].CopyStream?)
  {
    var e := Emission(x, response);
    assert Output([Op.Close]) == "" && CloseCount([Op.Close]) == 1;
    if x.failure.None? {
      assert e[1..][1..] == [Op.Close];
      assert Output(e[1..]) == response.body;
    } else {
      assert e[1..] == [Op.Close];
    }
  }

  /** The reads of an exchange followed by its emission, whatever the exchange. */
  lemma ReadsThenEmission(lines: seq<string>, x: Exchange, response: Response)
    ensures var s := ReadOps(lines) + Emission(x, response);
      && Output(s) == Output(Emission(x, response))
      && CloseCount(s) == 1 && s[|s| - 1] == Op.Close
      && s[|lines|..] == Emission(x, response)
      && (forall k :: 0 <= k < |lines| ==> s[k].Read?)
      && (x.failure.Some? ==> forall k :: 0 <= k < |s| ==> !s[k].CopyStream?)
  {
    var e := Emission(x, response);
    EmissionOnWire(x, response);
    ReadsThenOps(lines, e);
    ReadsBeforeOps(lines, e);
  }

  /**
   * On success the peer receives the response header string followed by the
   * response body, after every read; the socket is closed exactly once, as
   * the last operation.
   */
  lemma SuccessWritesResponseThenCloses(input: seq<string>, c0: nat, env: Env, pos: nat)
    requires c0 <= |input|
    requires Negotiation(input, c0, env, pos).failure.None?
    ensures var s := Session(input, c0, env, pos);
      var nread := Negotiation(input, c0, env, pos).cursor - c0;
      && Output(s) == env.response.headerString + env.response.body
      && CloseCount(s) == 1 && s[|s| - 1] == Op.Close
      && s[nread..] == [Op.Write(env.response.headerString), Op.CopyStream(env.response.body), Op.Close]
      && (forall k :: 0 <= k < nread ==> s[k].Read?)
  {
    var x := Negotiation(input, c0, env, pos);
    ReadsThenEmission(input[c0..x.cursor], x, env.response);
    EmissionOnWire(x, env.response);
  }

  /**
   * On failure the peer receives the exception message and a line end, after
   * every read and with no body copied; the socket is closed exactly once, as
   * the last operation.
   */
  lemma FailureWritesDiagnosticThenCloses(input: seq<string>, c0: nat, env: Env, pos: nat)
    requires c0 <= |input|
    requires Negotiation(input, c0, env, pos).failure.Some?
    ensures var s := Session(input, c0, env, pos);
      var x := Negotiation(input, c0, env, pos);
      var nread := x.cursor - c0;
      && Output(s) == x.failure.value.message + EOL
      && CloseCount(s) == 1 && s[|s| - 1] == Op.Close
      && s[nread..] == [Op.Write(x.failure.value.message + EOL), Op.Close]
      && (forall k :: 0 <= k < |s| ==> !s[k].CopyStream?)
      && (forall k :: 0 <= k < nread ==> s[k].Read?)
  {
    var x := Negotiation(input, c0, env, pos);
    ReadsThenEmission(input[c0..x.cursor], x, env.response);
    EmissionOnWire(x, env.response);
  }

  // ---------------------------------------------------------------------
  // Two concrete exchanges

  /**
   * A stray CRLF before `GET / HTTP/1.1`: the start-line parser receives the
   * request line, not the empty line, and the header block is the final CRLF.
   */
  lemma LeadingCrlfExample(env: Env, pos: nat)
    requires env.rejectStartLine("GET / HTTP/1.1\r\n").None?
    ensures var x := Negotiation(["\r\n", "GET / HTTP/1.1\r\n", "\r\n"], 0, env, pos);
      && |x.calls| == 2
      && x.calls[0] == Call.ParseStartLine("GET / HTTP/1.1\r\n")
      && x.calls[1] == Call.ParseHeaders("\r\n")
  {
    var input := ["\r\n", "GET / HTTP/1.1\r\n", "\r\n"];
    assert input[2..3] == ["\r\n"];
  }

  /**
   * `Content-Length: abc` raises nothing: the body loop reads no line, the
   * exchange succeeds and the response is sent.
   */
  lemma NonNumericExample(input: seq<string>, c0: nat, env: Env, pos: nat)
    requires c0 <= |input|
    requires Negotiation(input, c0, env, pos).headers.Some?
    requires Negotiation(input, c0, env, pos).headers.value.Keys == {CONTENT_LENGTH}
    requires Negotiation(input, c0, env, pos).headers.value[CONTENT_LENGTH] == "abc"
    ensures Negotiation(input, c0, env, pos).bodyLines == []
    ensures Output(Session(input, c0, env, pos)) == env.response.headerString + env.response.body
  {
    NonNumericContentLengthReadsNoBody(input, c0, env, pos);
    SuccessWritesResponseThenCloses(input, c0, env, pos);
  }
}
