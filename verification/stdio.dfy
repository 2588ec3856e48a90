/** The framing of JSON-RPC messages on standard input and output. */
module Stdio {
  import opened Wrappers
  import opened Strings
  import opened Integers
  import opened Utf8

  const MAX_FRAME_SIZE := 10 * 1024 * 1024

  datatype Error = BadUtf8 | BadLength | TooLong | HeadersCutOff | BodyCutOff

  // ---- decimal numbers ---------------------------------------------------------------

  /** `parse::<usize>`: an optional plus sign and digits, without overflow. */
  function ParseUsize(s: string): Option<nat> {
    var digits := if s != "" && s[0] == '+' then s[1..] else s;
    if digits == "" || !AllDigits(digits) || DigitsValue(digits) > USIZE_MAX then None
    else Some(DigitsValue(digits))
  }

  lemma ParseDecimal(n: nat)
    requires n <= USIZE_MAX
    ensures ParseUsize(Decimal(n)) == Some(n)
  {
    DecimalValue(n);
    assert IsDigit(Decimal(n)[0]);
  }

  // ---- reading -------------------------------------------------------------------------

  /** The end of the first line of `b`, its line feed included. */
  function LineEnd(b: Bytes): (n: nat)
    ensures n <= |b| && (b != [] ==> n > 0)
  {
    match Find(b, [10])
    case Some(i) => i + 1
    case None => |b|
  }

  /** `None` unless the line is a `Content-Length` header; an error when its number is not one. */
  function ParseContentLength(line: string): Result<Option<nat>, Error> {
    match Find(line, ":")
    case None => Ok(None)
    case Some(i) =>
      if Lower(Trim(line[..i])) != "content-length" then Ok(None)
      else
        match ParseUsize(Trim(line[i + 1..]))
        case None => Err(BadLength)
        case Some(n) => Ok(Some(n))
  }

  predicate IsLineBreakChar(c: char) { c == '\r' || c == '\n' }

  /** Skips header lines up to and including the first empty one. */
  function SkipHeaders(b: Bytes): (r: Result<Bytes, Error>)
    ensures r.Ok? ==> |r.value| < |b|
  {
    if b == [] then Err(HeadersCutOff)
    else
      var n := LineEnd(b);
      if !Valid(b[..n]) then Err(BadUtf8)
      else if Decode(b[..n]) == "\r\n" || Decode(b[..n]) == "\n" then Ok(b[n..])
      else SkipHeaders(b[n..])
  }

  datatype ReadResult = End | Frame(payload: Bytes, rest: Bytes) | Failed(error: Error)

  function ReadBody(b: Bytes, n: nat): (r: ReadResult)
    ensures r.Frame? ==> |r.rest| <= |b|
  {
    if n > MAX_FRAME_SIZE then Failed(TooLong)
    else
      match SkipHeaders(b)
      case Err(e) => Failed(e)
      case Ok(body) => if |body| < n then Failed(BodyCutOff) else Frame(body[..n], body[n..])
  }

  /** The message that the non-blank `line` starts or is, when `b` follows it. */
  function MessageAt(line: string, b: Bytes): (r: ReadResult)
    ensures r.Frame? ==> |r.rest| <= |b|
  {
    match ParseContentLength(line)
    case Err(e) => Failed(e)
    case Ok(Some(length)) => ReadBody(b, length)
    case Ok(None) => Frame(Encode(TrimEnd(line, IsLineBreakChar)), b)
  }

  /** The first message in `b`. */
  function ReadFrame(b: Bytes): (r: ReadResult)
    ensures r.Frame? ==> |r.rest| < |b|
  {
    if b == [] then End
    else
      var n := LineEnd(b);
      if !Valid(b[..n]) then Failed(BadUtf8)
      else if Trim(Decode(b[..n])) == "" then ReadFrame(b[n..])
      else MessageAt(Decode(b[..n]), b[n..])
  }

  /** All messages up to the end of the stream, and the error that stops reading, if any. */
  function ReadAll(b: Bytes): (seq<Bytes>, Option<Error>)
    decreases |b|
  {
    match ReadFrame(b)
    case End => ([], None)
    case Failed(e) => ([], Some(e))
    case Frame(payload, rest) => var (more, error) := ReadAll(rest); ([payload] + more, error)
  }

  class StdioReader {
    var rest: Bytes

    constructor (input: Bytes)
      ensures rest == input
    {
      rest := input;
    }

    /** `read_line`: the next line, `None` at the end of the stream. */
    method ReadLine() returns (line: Result<Option<string>, Error>)
      modifies this
      ensures rest == old(rest)[LineEnd(old(rest))..]
      ensures var bytes := old(rest)[..LineEnd(old(rest))];
              line == if bytes == [] then Ok(None) else if !Valid(bytes) then Err(BadUtf8) else Ok(Some(Decode(bytes)))
    {
      var bytes := rest[..LineEnd(rest)];
      rest := rest[LineEnd(rest)..];
      if bytes == [] {
        return Ok(None);
      }
      if !Valid(bytes) {
        return Err(BadUtf8);
      }
      return Ok(Some(Decode(bytes)));
    }

    method ReadHeaders() returns (error: Option<Error>)
      modifies this
      ensures match SkipHeaders(old(rest))
              case Err(e) => error == Some(e)
              case Ok(body) => error == None && rest == body
    {
      while true
        invariant SkipHeaders(rest) == SkipHeaders(old(rest))
        decreases |rest|
      {
        var header := ReadLine();
        match header {
          case Err(e) => return Some(e);
          case Ok(None) => return Some(HeadersCutOff);
          case Ok(Some(text)) =>
            if text == "\r\n" || text == "\n" {
              return None;
            }
        }
      }
    }

    /** The rest of a message whose first line was `line`. */
    method ReadMessage(line: string) returns (frame: Result<Option<Bytes>, Error>)
      modifies this
      ensures match MessageAt(line, old(rest))
              case End => false
              case Failed(e) => frame == Err(e)
              case Frame(payload, more) => frame == Ok(Some(payload)) && rest == more
    {
      hide SkipHeaders, Encode, TrimEnd, ParseContentLength;
      match ParseContentLength(line) {
        case Err(e) => return Err(e);
        case Ok(Some(length)) =>
          if length > MAX_FRAME_SIZE {
            return Err(TooLong);
          }
          var error := ReadHeaders();
          if error.Some? {
            return Err(error.value);
          }
          if |rest| < length {
            return Err(BodyCutOff);
          }
          var body := rest[..length];
          rest := rest[length..];
          return Ok(Some(body));
        case Ok(None) =>
          return Ok(Some(Encode(TrimEnd(line, IsLineBreakChar))));
      }
    }

    /** The next message, `None` at the end of the stream. */
    method ReadStdioFrame() returns (frame: Result<Option<Bytes>, Error>)
      modifies this
      ensures match ReadFrame(old(rest))
              case End => frame == Ok(None)
              case Failed(e) => frame == Err(e)
              case Frame(payload, more) => frame == Ok(Some(payload)) && rest == more
    {
      hide MessageAt, Valid, Decode, Trim, LineEnd;
      while true
        invariant ReadFrame(rest) == ReadFrame(old(rest))
        decreases |rest|
      {
        ghost var before := rest;
        var read := ReadLine();
        match read {
          case Err(e) => return Err(e);
          case Ok(None) => return Ok(None);
          case Ok(Some(line)) =>
            if Trim(line) != "" {
              frame := ReadMessage(line);
              return;
            }
        }
      }
    }
  }

  // ---- writing ---------------------------------------------------------------------------

  function FrameOf(body: Bytes): Bytes {
    Encode("Content-Length: " + Decimal(|body|) + "\r\n\r\n") + body
  }

  class StdioWriter {
    var written: Bytes

    constructor ()
      ensures written == []
    {
      written := [];
    }

    method WriteAll(bytes: Bytes)
      modifies this
      ensures written == old(written) + bytes
    {
      written := written + bytes;
    }

    method WriteStdioFrame(body: Bytes)
      modifies this
      ensures written == old(written) + FrameOf(body)
      ensures written == old(written) + (Encode("Content-Length: " + Decimal(|body|) + "\r\n\r\n") + body)
    {
      WriteAll(Encode("Content-Length: " + Decimal(|body|) + "\r\n\r\n"));
      WriteAll(body);
    }
  }
}
