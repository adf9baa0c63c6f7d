/**
 * The connection socket as the negotiation sees it: a sequence of lines sent
 * by the peer, read one at a time, and a trace of every operation performed
 * on the socket, in order.
 */
module Transport {
  import opened Wrappers
  import opened Wire

  /** One operation on the socket. */
  datatype Op =
    | Read(line: string)
    | Write(data: string)
    | CopyStream(data: string)
    | Close

  /** Every line of `lines` recorded as a read, in order. */
  function ReadOps(lines: seq<string>): (ops: seq<Op>)
    ensures |ops| == |lines|
  {
    if lines == [] then [] else ReadOps(lines[..|lines| - 1]) + [Read(lines[|lines| - 1])]
  }

  lemma {:induction false} ReadOpsAppend(a: seq<string>, b: seq<string>)
    ensures ReadOps(a + b) == ReadOps(a) + ReadOps(b)
    decreases |b|
  {
    if b == [] {
      assert a + b == a;
    } else {
      var n := |b| - 1;
      assert (a + b)[..|a + b| - 1] == a + b[..n];
      ReadOpsAppend(a, b[..n]);
    }
  }

  /** The i-th recorded operation is the read of the i-th line. */
  lemma {:induction false} ReadOpsAreReads(lines: seq<string>)
    ensures |ReadOps(lines)| == |lines|
    ensures forall i :: 0 <= i < |lines| ==> ReadOps(lines)[i] == Read(lines[i])
  {
    if lines != [] {
      ReadOpsAreReads(lines[..|lines| - 1]);
    }
  }

  /** Reading `input[a..b]` and then `input[b..c]` is reading `input[a..c]`. */
  lemma ReadsCompose(input: seq<string>, a: nat, b: nat, c: nat)
    requires a <= b <= c <= |input|
    ensures ReadOps(input[a..b]) + ReadOps(input[b..c]) == ReadOps(input[a..c])
  {
    assert input[a..c] == input[a..b] + input[b..c];
    ReadOpsAppend(input[a..b], input[b..c]);
  }

  /** A trace that records `input[a..b]` and then `input[b..c]` records `input[a..c]`. */
  lemma TraceCompose(trace: seq<Op>, input: seq<string>, a: nat, b: nat, c: nat)
    requires a <= b <= c <= |input|
    ensures trace + ReadOps(input[a..b]) + ReadOps(input[b..c]) == trace + ReadOps(input[a..c])
  {
    ReadsCompose(input, a, b, c);
    assert trace + ReadOps(input[a..b]) + ReadOps(input[b..c])
        == trace + (ReadOps(input[a..b]) + ReadOps(input[b..c]));
  }

  /** The bytes one operation puts on the wire. */
  function Sent(op: Op): string
  {
    match op
    case Write(data) => data
    case CopyStream(data) => data
    case _ => ""
  }

  /** The bytes a trace puts on the wire: written strings and copied streams. */
  function Output(ops: seq<Op>): string
  {
    if ops == [] then "" else Sent(ops[0]) + Output(ops[1..])
  }

  /** How many times a trace closes the socket. */
  function CloseCount(ops: seq<Op>): nat
  {
    if ops == [] then 0 else (if ops[0].Close? then 1 else 0) + CloseCount(ops[1..])
  }

  lemma {:induction false} OutputAppend(a: seq<Op>, b: seq<Op>)
    ensures Output(a + b) == Output(a) + Output(b)
  {
    if a == [] {
      assert a + b == b;
    } else {
      assert (a + b)[1..] == a[1..] + b;
      OutputAppend(a[1..], b);
    }
  }

  lemma {:induction false} CloseCountAppend(a: seq<Op>, b: seq<Op>)
    ensures CloseCount(a + b) == CloseCount(a) + CloseCount(b)
  {
    if a == [] {
      assert a + b == b;
    } else {
      assert (a + b)[1..] == a[1..] + b;
      CloseCountAppend(a[1..], b);
    }
  }

  /** Reading puts nothing on the wire and closes nothing. */
  lemma {:induction false} ReadsAreSilent(lines: seq<string>)
    ensures Output(ReadOps(lines)) == ""
    ensures CloseCount(ReadOps(lines)) == 0
  {
    if lines != [] {
      var init := lines[..|lines| - 1];
      var last := [Read(lines[|lines| - 1])];
      ReadsAreSilent(init);
      OutputAppend(ReadOps(init), last);
      CloseCountAppend(ReadOps(init), last);
    }
  }

  /** Reads followed by any operations send what those operations send and close as often. */
  lemma ReadsThenOps(lines: seq<string>, e: seq<Op>)
    ensures Output(ReadOps(lines) + e) == Output(e)
    ensures CloseCount(ReadOps(lines) + e) == CloseCount(e)
  {
    ReadsAreSilent(lines);
    OutputAppend(ReadOps(lines), e);
    CloseCountAppend(ReadOps(lines), e);
  }

  /** In reads followed by other operations, the reads come first and the rest follows unchanged. */
  lemma ReadsBeforeOps(lines: seq<string>, e: seq<Op>)
    ensures var s := ReadOps(lines) + e;
      && s[|lines|..] == e
      && (forall k :: 0 <= k < |lines| ==> s[k].Read?)
      && (forall k :: |lines| <= k < |s| ==> s[k] == e[k - |lines|])
  {
    var r := ReadOps(lines);
    ReadOpsAreReads(lines);
    assert (r + e)[|r|..] == e;
  }

  /**
   * SocketInterface: `input` is what the peer sends, split into lines with
   * their terminators; `cursor` counts the lines read so far. A read past the
   * last line fails with `eofMessage`, as a disconnect does.
   */
  class Socket {
    const input: seq<string>
    const eofMessage: string
    var cursor: nat
    var trace: seq<Op>

    ghost predicate Valid()
      reads this
    {
      cursor <= |input|
    }

    constructor (input: seq<string>, eofMessage: string)
      ensures Valid()
      ensures this.input == input && this.eofMessage == eofMessage
      ensures cursor == 0 && trace == []
    {
      this.input := input;
      this.eofMessage := eofMessage;
      cursor := 0;
      trace := [];
    }

    /** readLine(): the next line with its terminator, or a transport error at the end of input. */
    method ReadLine() returns (r: Result<string, Error>)
      requires Valid()
      modifies this
      ensures Valid()
      ensures old(cursor) < |input| ==>
        && r == Success(input[old(cursor)])
        && cursor == old(cursor) + 1
        && trace == old(trace) + [Read(input[old(cursor)])]
      ensures old(cursor) == |input| ==>
        && r == Failure(TransportError(eofMessage))
        && cursor == old(cursor)
        && trace == old(trace)
    {
      if cursor < |input| {
        r := Success(input[cursor]);
        trace := trace + [Read(input[cursor])];
        cursor := cursor + 1;
      } else {
        r := Failure(TransportError(eofMessage));
      }
    }

    /** write($data) */
    method Write(data: string)
      modifies this`trace
      ensures trace == old(trace) + [Op.Write(data)]
    {
      trace := trace + [Op.Write(data)];
    }

    /** copyStream($stream): relays the whole remaining content of a stream. */
    method CopyStream(source: string)
      modifies this`trace
      ensures trace == old(trace) + [Op.CopyStream(source)]
    {
      trace := trace + [Op.CopyStream(source)];
    }

    /** close() */
    method Close()
      modifies this`trace
      ensures trace == old(trace) + [Op.Close]
    {
      trace := trace + [Op.Close];
    }
  }
}
