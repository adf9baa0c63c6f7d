/**
 * Wire-level vocabulary of the negotiation: line terminators, the
 * Content-Length header name, concatenation of raw lines, the in-place write
 * of a PHP stream, and PHP's `(int)` cast of a header value.
 */
module Wire {

  /** The bare line terminator of HTTP/1.x (section 2.2 of RFC 2616). */
  const CRLF: string := "\r\n"

  /** PHP_EOL on the platforms this server runs on. */
  const EOL: string := "\n"

  /** HttpProtocol::HEADER_CONTENT_LENGTH (section 14.13 of RFC 2616). */
  const CONTENT_LENGTH: string := "Content-Length"

  /** The exceptions the negotiation can meet; the catch block uses only the message. */
  datatype Error =
    | TransportError(message: string)
    | ParseError(message: string)

  /** The raw lines joined end to end, terminators included (PHP's `.=` in a loop). */
  function Concat(lines: seq<string>): (r: string)
    ensures lines != [] ==> |r| >= |lines[|lines| - 1]|
  {
    if lines == [] then "" else Concat(lines[..|lines| - 1]) + lines[|lines| - 1]
  }

  lemma {:induction false} ConcatAppend(a: seq<string>, b: seq<string>)
    ensures Concat(a + b) == Concat(a) + Concat(b)
    decreases |b|
  {
    if b == [] {
      assert a + b == a;
    } else {
      var n := |b| - 1;
      assert (a + b)[..|a + b| - 1] == a + b[..n];
      ConcatAppend(a, b[..n]);
    }
  }

  lemma ConcatCons(line: string, rest: seq<string>)
    ensures Concat([line] + rest) == line + Concat(rest)
  {
    ConcatAppend([line], rest);
    assert [line][..0] == [];
  }

  /** A concatenation ends with its last line. */
  lemma ConcatEndsWithLast(lines: seq<string>)
    requires lines != []
    ensures Concat(lines)[|Concat(lines)| - |lines[|lines| - 1]|..] == lines[|lines| - 1]
  {
  }

  // ---------------------------------------------------------------------
  // A PHP stream written in place: fwrite at the position overwrites what is
  // there and extends the stream past its end.

  function Min(a: int, b: int): int { if a <= b then a else b }

  /** The content of a stream after writing `s` at position `pos`. */
  function Overwrite(content: seq<char>, pos: nat, s: string): (r: seq<char>)
    requires pos <= |content|
    ensures |r| == if pos + |s| <= |content| then |content| else pos + |s|
  {
    content[..pos] + s + content[Min(pos + |s|, |content|)..]
  }

  /**
   * A write keeps what precedes the position, puts `s` right at it, keeps
   * what follows the written region, and grows the stream only past its end.
   */
  lemma OverwritePlaces(content: seq<char>, pos: nat, s: string)
    requires pos <= |content|
    ensures var r := Overwrite(content, pos, s);
      && |r| == (if pos + |s| <= |content| then |content| else pos + |s|)
      && r[..pos] == content[..pos] && r[pos..pos + |s|] == s
      && (pos + |s| < |content| ==> r[pos + |s|..] == content[pos + |s|..])
  {
  }

  /** Two writes in a row are one write of the two strings joined. */
  lemma OverwriteTwice(content: seq<char>, pos: nat, a: string, b: string)
    requires pos <= |content|
    ensures Overwrite(Overwrite(content, pos, a), pos + |a|, b) == Overwrite(content, pos, a + b)
  {
    var once := Overwrite(content, pos, a);
    var twice := Overwrite(once, pos + |a|, b);
    var whole := Overwrite(content, pos, a + b);
    OverwritePlaces(content, pos, a);
    OverwritePlaces(once, pos + |a|, b);
    OverwritePlaces(content, pos, a + b);
    assert |twice| == |whole|;
    forall i | 0 <= i < |twice| ensures twice[i] == whole[i] {
      if i < pos {
        assert twice[i] == twice[..pos][i];
        assert whole[i] == whole[..pos][i];
        assert once[i] == once[..pos][i];
      } else if i < pos + |a| {
        assert twice[i] == twice[..pos + |a|][i];
        assert once[i] == once[pos..pos + |a|][i - pos];
        assert whole[i] == whole[pos..pos + |a + b|][i - pos];
      } else if i < pos + |a| + |b| {
        assert twice[i] == twice[pos + |a|..pos + |a| + |b|][i - pos - |a|];
        assert whole[i] == whole[pos..pos + |a + b|][i - pos];
      } else {
        assert twice[i] == twice[pos + |a| + |b|..][i - pos - |a| - |b|];
        assert whole[i] == whole[pos + |a| + |b|..][i - pos - |a| - |b|];
        assert once[i] == once[pos + |a|..][i - pos - |a|];
        assert once[pos + |a|..] == content[pos + |a|..];
      }
    }
  }

  /** Writing nothing leaves a stream's content as it was. */
  lemma OverwriteNothing(content: seq<char>, pos: nat)
    requires pos <= |content|
    ensures Overwrite(content, pos, "") == content
  {
    assert content[..pos] + content[pos..] == content;
  }

  /** Writing into a fresh, empty stream leaves exactly what was written. */
  lemma OverwriteFresh(s: string)
    ensures Overwrite([], 0, s) == s
  {
  }

  // ---------------------------------------------------------------------
  // The modelled PHP `(int)` of a string: leading whitespace is skipped, an
  // optional sign and the longest run of decimal digits that follows give the
  // value; a string with no such digits gives 0 and raises nothing. Fraction
  // and exponent forms (`1e3`, `.5e3`) are not modelled.

  predicate IsDigit(c: char) { '0' <= c <= '9' }

  predicate IsSpace(c: char) { c == ' ' || c == '\t' || c == '\n' || c == '\r' || c == '\U{B}' || c == '\U{C}' }

  function DigitValue(c: char): nat requires IsDigit(c) { (c - '0') as nat }

  /** `s` without its leading whitespace. */
  function SkipSpace(s: string): (r: string)
    ensures |r| <= |s| && r == s[|s| - |r|..]
    ensures forall i :: 0 <= i < |s| - |r| ==> IsSpace(s[i])
    ensures r == [] || !IsSpace(r[0])
  {
    if s != [] && IsSpace(s[0]) then SkipSpace(s[1..]) else s
  }

  /** The longest prefix of `s` made of decimal digits. */
  function LeadingDigits(s: string): (r: string)
    ensures |r| <= |s| && r == s[..|r|]
    ensures forall i :: 0 <= i < |r| ==> IsDigit(r[i])
    ensures |r| < |s| ==> !IsDigit(s[|r|])
  {
    if s != [] && IsDigit(s[0]) then [s[0]] + LeadingDigits(s[1..]) else []
  }

  /** The number a run of decimal digits denotes, most significant first. */
  function DecimalValue(digits: string): nat
    requires forall i :: 0 <= i < |digits| ==> IsDigit(digits[i])
  {
    if digits == [] then 0
    else DecimalValue(digits[..|digits| - 1]) * 10 + DigitValue(digits[|digits| - 1])
  }

  /** PHP's `(int)$value` for the forms a Content-Length header takes. */
  function PhpInt(s: string): (r: int)
    ensures r != 0 ==> StartsNumeric(s)
    ensures r < 0 ==> SkipSpace(s)[0] == '-'
  {
    var t := SkipSpace(s);
    if t != [] && t[0] == '-' then -(DecimalValue(LeadingDigits(t[1..])) as int)
    else if t != [] && t[0] == '+' then DecimalValue(LeadingDigits(t[1..]))
    else DecimalValue(LeadingDigits(t))
  }

  /** A string from which the modelled cast reads a leading integer. */
  predicate StartsNumeric(s: string)
  {
    var t := SkipSpace(s);
    t != [] && (IsDigit(t[0]) || ((t[0] == '-' || t[0] == '+') && |t| > 1 && IsDigit(t[1])))
  }

  /** The modelled cast of a value with no leading integer (`abc`, ``, `-x`) is 0, without an error. */
  lemma NonNumericCastsToZero(s: string)
    requires !StartsNumeric(s)
    ensures PhpInt(s) == 0
  {
    var t := SkipSpace(s);
    if t != [] && (t[0] == '-' || t[0] == '+') {
      assert LeadingDigits(t[1..]) == [];
    } else {
      assert LeadingDigits(t) == [];
    }
  }

  /** The decimal spelling of a natural number, without leading zeros. */
  function Decimal(n: nat): (r: string)
    ensures r != [] && forall i :: 0 <= i < |r| ==> IsDigit(r[i])
  {
    if n < 10 then ['0' + n as char] else Decimal(n / 10) + ['0' + (n % 10) as char]
  }

  lemma {:induction false} DecimalValueOfDecimal(n: nat)
    ensures DecimalValue(Decimal(n)) == n
  {
    if n >= 10 {
      var d := Decimal(n);
      assert d[..|d| - 1] == Decimal(n / 10);
      DecimalValueOfDecimal(n / 10);
    }
  }

  lemma {:induction false} LeadingDigitsOfDigits(digits: string, rest: string)
    requires forall i :: 0 <= i < |digits| ==> IsDigit(digits[i])
    requires rest == [] || !IsDigit(rest[0])
    ensures LeadingDigits(digits + rest) == digits
    decreases |digits|
  {
    if digits != [] {
      assert (digits + rest)[1..] == digits[1..] + rest;
      LeadingDigitsOfDigits(digits[1..], rest);
    } else {
      assert digits + rest == rest;
    }
  }

  /**
   * A well-formed Content-Length value casts back to the number it spells,
   * whatever non-digit text follows it (a trailing CRLF, say).
   */
  lemma PhpIntOfDecimal(n: nat, rest: string)
    requires rest == [] || !IsDigit(rest[0])
    ensures PhpInt(Decimal(n) + rest) == n
  {
    var d := Decimal(n);
    assert IsDigit((d + rest)[0]) by {
      assert IsDigit(d[0]);
      assert (d + rest)[0] == d[0];
    }
    PhpIntOfDigits(d + rest);
    LeadingDigitsOfDigits(d, rest);
    DecimalValueOfDecimal(n);
  }

  /** A string that starts with a digit casts to the value of its leading digits. */
  lemma PhpIntOfDigits(s: string)
    requires s != [] && IsDigit(s[0])
    ensures PhpInt(s) == DecimalValue(LeadingDigits(s))
  {
    assert !IsSpace(s[0]) && s[0] != '-' && s[0] != '+';
    assert SkipSpace(s) == s;
  }
}
