/**
 * The collaborators the negotiation drives: the line parser, the request it
 * fills (headers and a seekable body stream) and the response it hands back.
 * The start-line and header grammar is not modelled: the parser is described
 * by what it rejects and by the header map it produces for a header block.
 */
module Messages {
  import opened Wrappers
  import opened Wire

  /** One call into the parser's entry points. */
  datatype Call =
    | ParseStartLine(line: string)
    | ParseHeaders(block: string)

  /** The response produced downstream: its serialised header block and its body. */
  datatype Response = Response(headerString: string, body: string)

  /** A seekable PHP stream, not in append mode: its bytes and the position ftell reports. */
  class BodyStream {
    var content: seq<char>
    var position: nat

    ghost predicate Valid()
      reads this
    {
      position <= |content|
    }

    constructor ()
      ensures Valid() && content == [] && position == 0
    {
      content := [];
      position := 0;
    }

    /** ftell($stream) */
    function Tell(): (p: nat)
      reads this
      requires Valid()
      ensures p <= |content|
    {
      position
    }

    /** fwrite($stream, $data, strlen($data)): overwrite at the position and advance past it. */
    method Write(data: string)
      requires Valid()
      modifies this
      ensures Valid()
      ensures content == Overwrite(old(content), old(position), data)
      ensures position == old(position) + |data|
    {
      content := Overwrite(content, position, data);
      position := position + |data|;
    }

    /** fseek($stream, 0) */
    method Rewind()
      requires Valid()
      modifies this`position
      ensures Valid() && position == 0
    {
      position := 0;
    }
  }

  /** RequestInterface: the header map the parser stores and the body stream. */
  class Request {
    var headers: map<string, string>
    const body: BodyStream

    constructor (body: BodyStream)
      ensures headers == map[] && this.body == body
    {
      headers := map[];
      this.body := body;
    }

    predicate HasHeader(name: string): (b: bool)
      reads this
      ensures b <==> name in headers.Keys
    {
      name in headers
    }

    function GetHeader(name: string): (v: string)
      reads this
      requires HasHeader(name)
      ensures (name, v) in headers.Items
    {
      headers[name]
    }

    method GetBodyStream() returns (s: BodyStream)
      ensures s == body
    {
      s := body;
    }
  }

  /**
   * ParserInterface. `rejectStartLine(line)` and `rejectHeaders(block)` give
   * the message of the exception the parser raises for that input, if any;
   * `headersOf(block)` is the header map an accepted block leaves on the
   * request. `calls` records every call into the parser.
   */
  class Parser {
    const request: Request
    const response: Response
    const rejectStartLine: string -> Option<string>
    const rejectHeaders: string -> Option<string>
    const headersOf: string -> map<string, string>
    var calls: seq<Call>

    constructor (request: Request, response: Response,
                 rejectStartLine: string -> Option<string>,
                 rejectHeaders: string -> Option<string>,
                 headersOf: string -> map<string, string>)
      ensures this.request == request && this.response == response
      ensures this.rejectStartLine == rejectStartLine && this.rejectHeaders == rejectHeaders
      ensures this.headersOf == headersOf && calls == []
    {
      this.request := request;
      this.response := response;
      this.rejectStartLine := rejectStartLine;
      this.rejectHeaders := rejectHeaders;
      this.headersOf := headersOf;
      calls := [];
    }

    /** parseStartLine($line): raises a parse error for a rejected line. */
    method ParseStartLine(line: string) returns (o: Outcome<Error>)
      modifies this`calls
      ensures calls == old(calls) + [Call.ParseStartLine(line)]
      ensures o == match rejectStartLine(line)
                   case None => Pass
                   case Some(m) => Fail(ParseError(m))
    {
      calls := calls + [Call.ParseStartLine(line)];
      match rejectStartLine(line)
      case None => o := Pass;
      case Some(m) => o := Fail(ParseError(m));
    }

    /** parseHeaders($block): raises a parse error, or stores the block's headers on the request. */
    method ParseHeaders(block: string) returns (o: Outcome<Error>)
      modifies this`calls, request`headers
      ensures calls == old(calls) + [Call.ParseHeaders(block)]
      ensures o == match rejectHeaders(block)
                   case None => Pass
                   case Some(m) => Fail(ParseError(m))
      ensures request.headers == if o.Pass? then headersOf(block) else old(request.headers)
    {
      calls := calls + [Call.ParseHeaders(block)];
      match rejectHeaders(block)
      case None =>
        request.headers := headersOf(block);
        o := Pass;
      case Some(m) =>
        o := Fail(ParseError(m));
    }

    method GetRequest() returns (r: Request)
      ensures r == request
    {
      r := request;
    }

    method GetResponse() returns (r: Response)
      ensures r == response
    {
      r := response;
    }
  }
}
