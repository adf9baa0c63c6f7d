/**
 * HttpConnection: one socket and one parser, and negotiate(), which runs a
 * single HTTP/1.x request/response exchange over them.
 */
module Http {
  import opened Wrappers
  import opened Wire
  import opened Transport
  import opened Messages
  import opened Protocol

  /**
   * One turn of the header loop: reading line `c` extends the block by it,
   * and either it is the first bare CRLF from here or the search goes on.
   */
  lemma HeaderStep(input: seq<string>, c1: nat, c: nat)
    requires c1 <= c < |input|
    ensures Concat(input[c1..c + 1]) == Concat(input[c1..c]) + input[c]
    ensures ReadOps(input[c1..c + 1]) == ReadOps(input[c1..c]) + [Read(input[c])]
    ensures input[c] == CRLF ==> FirstCrlf(input, c) == Some(c)
    ensures input[c] != CRLF ==> FirstCrlf(input, c) == FirstCrlf(input, c + 1)
  {
    assert input[c1..c + 1][..c - c1] == input[c1..c];
  }

  /**
   * One turn of the body loop: appending line `c` extends the concatenation,
   * the written region and the position, and leaves the stopping point alone.
   */
  lemma BodyStep(input: seq<string>, c2: nat, c: nat, content0: seq<char>, pos0: nat, n: int)
    requires c2 <= c < |input| && pos0 <= |content0|
    requires pos0 + |Concat(input[c2..c])| < n
    ensures Concat(input[c2..c + 1]) == Concat(input[c2..c]) + input[c]
    ensures ReadOps(input[c2..c + 1]) == ReadOps(input[c2..c]) + [Read(input[c])]
    ensures Overwrite(Overwrite(content0, pos0, Concat(input[c2..c])), pos0 + |Concat(input[c2..c])|, input[c])
            == Overwrite(content0, pos0, Concat(input[c2..c + 1]))
    ensures BodyStop(input, c, pos0 + |Concat(input[c2..c])|, n)
            == BodyStop(input, c + 1, pos0 + |Concat(input[c2..c + 1])|, n)
  {
    assert input[c2..c + 1][..c - c2] == input[c2..c];
    OverwriteTwice(content0, pos0, Concat(input[c2..c]), input[c]);
  }

  class HttpConnection {
    const socket: Socket
    const parser: Parser

    constructor (socket: Socket, parser: Parser)
      requires socket.Valid() && parser.request.body.Valid()
      ensures this.socket == socket && this.parser == parser
      ensures Valid()
    {
      this.socket := socket;
      this.parser := parser;
    }

    /** getSocket() */
    method GetSocket() returns (s: Socket)
      ensures s == socket
    {
      s := socket;
    }

    /** getParser() */
    method GetParser() returns (p: Parser)
      ensures p == parser
    {
      p := parser;
    }

    ghost predicate Valid()
      reads socket, parser.request.body
    {
      socket.Valid() && parser.request.body.Valid()
    }

    /** The behaviour of the collaborators this connection is bound to. */
    function Collaborators(): Env
    {
      Env(socket.eofMessage, parser.rejectStartLine, parser.rejectHeaders,
          parser.headersOf, parser.response)
    }

    /** HttpConnection.php lines 65-78: the start-line, skipping one leading bare CRLF. */
    method ReadStartLine() returns (r: Result<string, Error>)
      requires socket.Valid()
      modifies socket
      ensures socket.Valid() && old(socket.cursor) <= socket.cursor
      ensures socket.trace == old(socket.trace) + ReadOps(socket.input[old(socket.cursor)..socket.cursor])
      ensures match StartLine(socket.input, old(socket.cursor))
        case Got(line, next) => r == Success(line) && socket.cursor == next
        case Exhausted => r == Failure(TransportError(socket.eofMessage)) && socket.cursor == |socket.input|
    {
      ghost var c0 := socket.cursor;
      r := socket.ReadLine();
      if r.Success? {
        assert socket.input[c0..c0 + 1] == [r.value];
        assert ReadOps([r.value]) == [Read(r.value)];
      } else {
        assert socket.input[c0..c0] == [];
      }
      if r.Success? && r.value == CRLF {
        r := socket.ReadLine();
        if r.Success? {
          assert socket.input[c0..c0 + 2] == [CRLF, r.value];
          assert ReadOps([CRLF, r.value]) == [Read(CRLF), Read(r.value)];
        }
      }
    }

    /**
     * HttpConnection.php lines 87-93: accumulate the lines after the start-line, whose value
     * `line` still holds, up to and including the first bare CRLF.
     */
    method ReadHeaderBlock(line: string) returns (r: Result<string, Error>)
      requires socket.Valid()
      modifies socket
      ensures socket.Valid() && old(socket.cursor) <= socket.cursor
      ensures socket.trace == old(socket.trace) + ReadOps(socket.input[old(socket.cursor)..socket.cursor])
      ensures match HeaderBlock(socket.input, line, old(socket.cursor))
        case Got(block, next) => r == Success(block) && socket.cursor == next
        case Exhausted => r == Failure(TransportError(socket.eofMessage)) && socket.cursor == |socket.input|
    {
      var input := socket.input;
      ghost var c1 := socket.cursor;
      ghost var trace0 := socket.trace;
      var current := line;
      var messageHeaders := "";
      ghost var k := c1;
      while current != CRLF
        invariant socket.Valid() && k == socket.cursor && c1 <= k
        invariant socket.trace == trace0 + ReadOps(input[c1..k])
        invariant messageHeaders == Concat(input[c1..k])
        invariant k == c1 ==> current == line
        invariant line == CRLF ==> k == c1
        invariant k > c1 ==> current == input[k - 1]
        invariant line != CRLF && current == CRLF ==> FirstCrlf(input, c1) == Some(k - 1)
        invariant line != CRLF && current != CRLF ==> FirstCrlf(input, c1) == FirstCrlf(input, k)
        decreases |input| - k
      {
        var next := socket.ReadLine();
        if next.Failure? {
          return Failure(next.error);
        }
        current := next.value;
        assert current == input[k];
        HeaderStep(input, c1, k);
        k := k + 1;
        messageHeaders := messageHeaders + current;
      }
      if line == CRLF {
        assert input[c1..socket.cursor] == [];
      }
      r := Success(messageHeaders);
    }

    /**
     * HttpConnection.php lines 103-110: append whole lines to the request body until the
     * stream position reaches `contentLength`, then rewind the stream.
     */
    method ReadBody(contentLength: int) returns (o: Outcome<Error>)
      requires socket.Valid() && parser.request.body.Valid()
      modifies socket, parser.request.body
      ensures socket.Valid() && parser.request.body.Valid() && old(socket.cursor) <= socket.cursor
      ensures socket.trace == old(socket.trace) + ReadOps(socket.input[old(socket.cursor)..socket.cursor])
      ensures var lines := socket.input[old(socket.cursor)..socket.cursor];
        && parser.request.body.content
           == Overwrite(old(parser.request.body.content), old(parser.request.body.position), Concat(lines))
        && match BodyStop(socket.input, old(socket.cursor), old(parser.request.body.position), contentLength)
           case Some(j) => o == Pass && socket.cursor == j && parser.request.body.position == 0
           case None =>
             && o == Fail(TransportError(socket.eofMessage)) && socket.cursor == |socket.input|
             && parser.request.body.position == old(parser.request.body.position) + |Concat(lines)|
    {
      var input := socket.input;
      var request := parser.GetRequest();
      var body := request.GetBodyStream();
      ghost var c2 := socket.cursor;
      ghost var trace0 := socket.trace;
      ghost var content0 := body.content;
      ghost var pos0 := body.position;
      while body.Tell() < contentLength
        invariant socket.Valid() && body.Valid() && c2 <= socket.cursor
        invariant socket.trace == trace0 + ReadOps(input[c2..socket.cursor])
        invariant body.content == Overwrite(content0, pos0, Concat(input[c2..socket.cursor]))
        invariant body.position == pos0 + |Concat(input[c2..socket.cursor])|
        invariant BodyStop(input, c2, pos0, contentLength)
                  == BodyStop(input, socket.cursor, body.position, contentLength)
        decreases |input| - socket.cursor
      {
        ghost var c := socket.cursor;
        var next := socket.ReadLine();
        if next.Failure? {
          return Fail(next.error);
        }
        var line := next.value;
        BodyStep(input, c2, c, content0, pos0, contentLength);
        body.Write(line);
      }
      body.Rewind();
      o := Pass;
    }

    /** The observable state of the socket, the parser and the request. */
    function Snapshot(): State
      reads socket, parser, parser.request, parser.request.body
    {
      State(socket.cursor, socket.trace, parser.calls, parser.request.headers,
            parser.request.body.content, parser.request.body.position)
    }

    /** HttpConnection.php lines 96-111: parse the header block, then frame the body by Content-Length. */
    method ReceiveFromHeaderBlock(messageHeaders: string) returns (outcome: Outcome<Error>)
      requires Valid()
      modifies socket, parser, parser.request, parser.request.body
      ensures Valid() && old(socket.cursor) <= socket.cursor
      ensures var x := FromHeaderBlock(socket.input, messageHeaders, old(socket.cursor), Collaborators(),
                                       old(parser.request.body.position));
        outcome == OutcomeOf(x) && Snapshot() == After(x, socket.input, old(Snapshot()))
    {
      ghost var c2 := socket.cursor;
      ghost var before := Snapshot();
      outcome := parser.ParseHeaders(messageHeaders);
      if outcome.Fail? {
        assert socket.input[c2..c2] == [];
        OverwriteNothing(before.content, before.position);
        return;
      }
      var request := parser.GetRequest();
      if request.HasHeader(CONTENT_LENGTH) {
        var contentLength := PhpInt(request.GetHeader(CONTENT_LENGTH));
        outcome := ReadBody(contentLength);
        if outcome.Fail? {
          assert socket.input[c2..] == socket.input[c2..socket.cursor];
        }
      } else {
        assert socket.input[c2..c2] == [];
        OverwriteNothing(before.content, before.position);
      }
    }

    /** HttpConnection.php lines 80-111: parse the start-line, read and parse the header block, frame the body. */
    method ReceiveFromStartLine(line: string) returns (outcome: Outcome<Error>)
      requires Valid()
      modifies socket, parser, parser.request, parser.request.body
      ensures Valid() && old(socket.cursor) <= socket.cursor
      ensures var x := FromStartLine(socket.input, line, old(socket.cursor), Collaborators(),
                                     old(parser.request.body.position));
        outcome == OutcomeOf(x) && Snapshot() == After(x, socket.input, old(Snapshot()))
    {
      ghost var input := socket.input;
      ghost var c1 := socket.cursor;
      ghost var before := Snapshot();
      OverwriteNothing(before.content, before.position);
      outcome := parser.ParseStartLine(line);
      if outcome.Fail? {
        assert input[c1..c1] == [];
        return;
      }
      var r := ReadHeaderBlock(line);
      if r.Failure? {
        return Fail(r.error);
      }
      ghost var c2 := socket.cursor;
      ghost var first := Exchange(None, c2, [Call.ParseStartLine(line)], None, [], false);
      assert Snapshot() == After(first, input, before);
      outcome := ReceiveFromHeaderBlock(r.value);
      ghost var rest := FromHeaderBlock(input, r.value, c2, Collaborators(), before.position);
      AfterThen(first, rest, input, before);
    }

    /**
     * HttpConnection.php lines 61-111: read and parse the start-line, the header
     * block and the body. Returns the exception raised, if any.
     */
    method ReceiveRequest() returns (outcome: Outcome<Error>)
      requires Valid()
      modifies socket, parser, parser.request, parser.request.body
      ensures Valid() && old(socket.cursor) <= socket.cursor
      ensures var x := Negotiation(socket.input, old(socket.cursor), Collaborators(),
                                   old(parser.request.body.position));
        outcome == OutcomeOf(x) && Snapshot() == After(x, socket.input, old(Snapshot()))
    {
      ghost var input := socket.input;
      ghost var before := Snapshot();
      OverwriteNothing(before.content, before.position);
      var r := ReadStartLine();
      if r.Failure? {
        return Fail(r.error);
      }
      ghost var first := Exchange(None, socket.cursor, [], None, [], false);
      assert Snapshot() == After(first, input, before);
      outcome := ReceiveFromStartLine(r.value);
      ghost var rest := FromStartLine(input, r.value, first.cursor, Collaborators(), before.position);
      AfterThen(first, rest, input, before);
      assert rest.(calls := [] + rest.calls) == rest;
    }

    /**
     * HttpConnection.php lines 113-123: after the try block, either the response header string
     * and body or the exception message and an end-of-line, then the close, on the
     * `socket` and `parser` that negotiate() obtained from getSocket() and getParser().
     */
    static method Respond(socket: Socket, parser: Parser, outcome: Outcome<Error>, ghost x: Exchange)
      requires outcome == OutcomeOf(x)
      modifies socket`trace
      ensures socket.trace == old(socket.trace) + Emission(x, parser.response)
    {
      match outcome
      case Pass =>
        var response := parser.GetResponse();
        socket.Write(response.headerString);
        socket.CopyStream(response.body);
        socket.Close();
      case Fail(e) =>
        socket.Write(e.message + EOL);
        socket.Close();
    }

    /**
     * negotiate(): receive the request, then either send the response header
     * string and body or, if an exception was raised, its message and an
     * end-of-line; close the socket on both paths.
     */
    method Negotiate()
      requires Valid()
      modifies socket, parser, parser.request, parser.request.body
      ensures Valid()
      ensures socket.trace == old(socket.trace)
        + Session(socket.input, old(socket.cursor), Collaborators(), old(parser.request.body.position))
      ensures var x := Negotiation(socket.input, old(socket.cursor), Collaborators(),
                                   old(parser.request.body.position));
        && socket.cursor == x.cursor
        && parser.calls == old(parser.calls) + x.calls
        && parser.request.headers == (if x.headers.Some? then x.headers.value else old(parser.request.headers))
        && parser.request.body.content
           == Overwrite(old(parser.request.body.content), old(parser.request.body.position), Concat(x.bodyLines))
        && parser.request.body.position
           == (if x.rewound then 0 else old(parser.request.body.position) + |Concat(x.bodyLines)|)
    {
      ghost var before := Snapshot();
      ghost var x := Negotiation(socket.input, socket.cursor, Collaborators(), parser.request.body.position);
      var p := GetParser();
      var s := GetSocket();
      var outcome := ReceiveRequest();
      ghost var received := Snapshot();
      assert received == After(x, socket.input, before);
      Respond(s, p, outcome, x);
      assert socket.trace == before.trace + ReadOps(socket.input[before.cursor..x.cursor]) + Emission(x, parser.response);
    }
  }
}
