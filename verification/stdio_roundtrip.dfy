/** Reading undoes writing, also between blank lines and newline-delimited messages. */
module StdioRoundTrip {
  import opened Wrappers
  import opened Strings
  import opened Integers
  import opened Utf8
  import opened Stdio

  /** What may stand on the stream: a written frame, a blank line, or a message on a line of its own. */
  datatype Item =
    | Framed(body: Bytes)
    | Blank(text: string)
    | Line(text: string, crlf: bool)

  function LineText(text: string, crlf: bool): string {
    text + (if crlf then "\r\n" else "\n")
  }

  predicate ValidItem(item: Item) {
    match item
    case Framed(body) => |body| <= MAX_FRAME_SIZE
    case Blank(text) => '\n' !in text && Trim(text + "\n") == ""
    case Line(text, crlf) =>
      && '\n' !in text && (text != "" ==> text[|text| - 1] != '\r')
      && Trim(LineText(text, crlf)) != ""
      && ParseContentLength(LineText(text, crlf)) == Ok(None)
  }

  function Render(item: Item): Bytes {
    match item
    case Framed(body) => FrameOf(body)
    case Blank(text) => Encode(text + "\n")
    case Line(text, crlf) => Encode(LineText(text, crlf))
  }

  function RenderAll(items: seq<Item>): Bytes {
    if items == [] then [] else Render(items[0]) + RenderAll(items[1..])
  }

  function Payloads(items: seq<Item>): seq<Bytes> {
    if items == [] then []
    else
      (match items[0]
       case Framed(body) => [body]
       case Blank(_) => []
       case Line(text, _) => [Encode(text)])
      + Payloads(items[1..])
  }

  // ---- lines ------------------------------------------------------------------------------

  lemma EncodeLine(text: string)
    ensures Encode(text + "\n") == Encode(text) + [10]
  {
    EncodeAppend(text, "\n");
    EncodeCons('\n', "");
  }

  /** A text line on the stream is read up to its line feed. */
  lemma LineRead(text: string, rest: Bytes)
    requires '\n' !in text
    ensures var line := Encode(text + "\n");
            var b := line + rest;
            && LineEnd(b) == |line| && b[..LineEnd(b)] == line && b[LineEnd(b)..] == rest
            && Valid(line) && Decode(line) == text + "\n"
  {
    hide Encode, Decode, Valid;
    var line := Encode(text + "\n");
    EncodeLine(text);
    DecodeEncode(text + "\n");
    AsciiByte(text, '\n');
    FindFirst(Encode(text), 10, rest);
    assert line + rest == Encode(text) + [10] + rest;
  }

  /** Reading steps over a blank line and stops at any other. */
  lemma {:induction false} ReadLineFirst(text: string, rest: Bytes)
    requires '\n' !in text
    ensures ReadFrame(Encode(text + "\n") + rest)
            == if Trim(text + "\n") == "" then ReadFrame(rest) else MessageAt(text + "\n", rest)
  {
    hide MessageAt, Trim, Encode, Decode, Valid, LineEnd;
    LineRead(text, rest);
    assert Encode(text + "\n") != [] by { EncodeLine(text); }
  }

  // ---- frames -------------------------------------------------------------------------------

  /** The number of a `Content-Length` header is found between the white space around it. */
  lemma TrimNumber(digits: string)
    requires digits != "" && AllDigits(digits)
    ensures Trim(" " + digits + "\r\n") == digits
  {
    assert IsDigit(digits[0]) && IsDigit(digits[|digits| - 1]);
    TrimAround(" ", digits, "\r\n", IsWhitespace);
  }

  const HEADER_NAME := "Content-Length"

  lemma LowerHeader()
    ensures Lower(HEADER_NAME) == "content-length"
  {
  }

  lemma NoColonInName()
    ensures ':' !in HEADER_NAME && HEADER_NAME != "" && HEADER_NAME[0] == 'C' && HEADER_NAME[|HEADER_NAME| - 1] == 'h'
  {
  }

  lemma {:induction false} HeaderName()
    ensures ':' !in HEADER_NAME && Lower(Trim(HEADER_NAME)) == "content-length"
  {
    hide Lower, TrimBy, TrimStart, TrimEnd;
    LowerHeader();
    NoColonInName();
    TrimNothing(HEADER_NAME, IsWhitespace);
  }

  /** The header line that is written names the length of the body. */
  lemma {:induction false} HeaderParsed(n: nat)
    requires n <= USIZE_MAX
    ensures ParseContentLength("Content-Length: " + Decimal(n) + "\r\n") == Ok(Some(n))
  {
    hide Find, Trim, Lower, ParseUsize, Decimal;
    var tail := " " + Decimal(n) + "\r\n";
    var line := "Content-Length: " + Decimal(n) + "\r\n";
    assert line == HEADER_NAME + ":" + tail;
    HeaderName();
    FindFirst(HEADER_NAME, ':', tail);
    assert line[..14] == HEADER_NAME && line[15..] == tail;
    TrimNumber(Decimal(n));
    ParseDecimal(n);
  }

  lemma HeaderNotBlank(tail: string)
    ensures Trim("C" + tail) != ""
  {
    NonBlankStart("C" + tail);
  }

  lemma {:induction false} NonBlankStart(s: string)
    requires s != "" && !IsWhitespace(s[0])
    ensures TrimEnd(s, IsWhitespace) != "" && TrimStart(s, IsWhitespace) == s
  {
    if |s| > 1 { NonBlankStart(s[..|s| - 1]); }
  }

  lemma EmptyHeaderEndsHeaders(body: Bytes)
    ensures SkipHeaders(Encode("\r\n") + body) == Ok(body)
  {
    hide Encode, Decode, Valid, LineEnd;
    assert "\r" + "\n" == "\r\n";
    LineRead("\r", body);
    EncodeLine("\r");
  }

  lemma DecimalHasNoBreak(n: nat)
    ensures '\n' !in "Content-Length: " + Decimal(n) + "\r"
  {
    var d := Decimal(n);
    forall c | c in d ensures IsDigit(c) { }
    assert '\n' !in d;
    assert '\n' !in "Content-Length: ";
  }

  lemma BodyRead(body: Bytes, rest: Bytes)
    requires |body| <= MAX_FRAME_SIZE
    ensures ReadBody(Encode("\r\n") + (body + rest), |body|) == Frame(body, rest)
  {
    hide Encode, SkipHeaders;
    EmptyHeaderEndsHeaders(body + rest);
    assert (body + rest)[..|body|] == body && (body + rest)[|body|..] == rest;
  }

  lemma HeaderLine(n: nat) returns (header: string)
    ensures header + "\n" == "Content-Length: " + Decimal(n) + "\r\n"
    ensures (header + "\n") + "\r\n" == "Content-Length: " + Decimal(n) + "\r\n\r\n"
    ensures '\n' !in header && Trim(header + "\n") != ""
  {
    hide Trim;
    var d := Decimal(n);
    header := "Content-Length: " + d + "\r";
    DecimalHasNoBreak(n);
    assert header + "\n" == "C" + ("ontent-Length: " + d + "\r\n");
    HeaderNotBlank("ontent-Length: " + d + "\r\n");
  }

  /** A written frame is read back whole, whatever bytes its body has. */
  lemma {:induction false} FrameRead(body: Bytes, rest: Bytes)
    requires |body| <= MAX_FRAME_SIZE
    ensures ReadFrame(FrameOf(body) + rest) == Frame(body, rest)
  {
    hide Encode, Trim, ParseContentLength, ReadBody, Decimal, ReadFrame;
    var header := HeaderLine(|body|);
    var after := Encode("\r\n") + (body + rest);
    EncodeAppend(header + "\n", "\r\n");
    assert FrameOf(body) + rest == Encode(header + "\n") + after;
    ReadLineFirst(header, after);
    HeaderParsed(|body|);
    BodyRead(body, rest);
  }

  lemma TrimmedLine(text: string, crlf: bool)
    requires '\n' !in text && (text != "" ==> text[|text| - 1] != '\r')
    ensures TrimEnd(LineText(text, crlf), IsLineBreakChar) == text
  {
    if text != "" { assert text[|text| - 1] in text; }
    TrimEndAround(text, if crlf then "\r\n" else "\n", IsLineBreakChar);
  }

  lemma {:induction false} LineMessageRead(text: string, crlf: bool, rest: Bytes)
    requires ValidItem(Line(text, crlf))
    ensures ReadFrame(Render(Line(text, crlf)) + rest) == Frame(Encode(text), rest)
  {
    hide Encode, Trim, ParseContentLength, TrimEnd;
    var stem := if crlf then text + "\r" else text;
    assert stem + "\n" == LineText(text, crlf);
    ReadLineFirst(stem, rest);
    TrimmedLine(text, crlf);
  }

  lemma TrimKeepsFirst(s: string)
    requires s != "" && !IsWhitespace(s[0])
    ensures Trim(s) != "" && Trim(s)[0] == s[0]
  {
    NonBlankStart(s);
    TrimEndIsPrefix(s, IsWhitespace);
  }

  lemma NoHeaderName(name: string)
    requires name != "" && (name[0] == '{' || name[0] == '[')
    ensures Lower(Trim(name)) != "content-length"
  {
    hide Trim;
    TrimKeepsFirst(name);
    var trimmed := Trim(name);
    assert Lower(trimmed)[0] == LowerChar(trimmed[0]);
    assert "content-length"[0] == 'c';
  }

  lemma {:induction false} JsonIsNoHeader(line: string)
    requires line != "" && (line[0] == '{' || line[0] == '[')
    ensures ParseContentLength(line) == Ok(None)
  {
    hide Trim, Lower, ParseUsize;
    assert ":" == [':'];
    FindChar(line, ':');
    match Find(line, ":")
    case None =>
    case Some(i) => NoHeaderName(line[..i]);
  }

  /** A JSON object or array on a line of its own is a message, whatever it says. */
  lemma {:induction false} JsonLineIsMessage(text: string, crlf: bool)
    requires text != "" && (text[0] == '{' || text[0] == '[')
    requires '\n' !in text && text[|text| - 1] != '\r'
    ensures ValidItem(Line(text, crlf))
  {
    hide Trim, ParseContentLength;
    var line := LineText(text, crlf);
    assert line[0] == text[0];
    TrimKeepsFirst(line);
    JsonIsNoHeader(line);
  }

  /** Reading the whole stream returns exactly the payloads, and then the end of the stream. */
  lemma {:induction false} ReadAllUndoesRender(items: seq<Item>)
    requires forall item :: item in items ==> ValidItem(item)
    ensures ReadAll(RenderAll(items)) == (Payloads(items), None)
  {
    hide ReadFrame, Render, ValidItem, FrameOf, Encode;
    if items != [] {
      var rest := RenderAll(items[1..]);
      assert items[0] in items;
      ReadAllUndoesRender(items[1..]);
      FirstItemRead(items[0], rest);
      assert [] + Payloads(items[1..]) == Payloads(items[1..]);
    } else {
      assert ReadAll([]) == ([], None) by { EndOfStream(); }
    }
  }

  lemma EndOfStream()
    ensures ReadAll([]) == ([], None)
  {
  }

  lemma {:induction false} FirstItemRead(item: Item, rest: Bytes)
    requires ValidItem(item)
    ensures var (more, error) := ReadAll(rest);
            ReadAll(Render(item) + rest)
            == match item
               case Framed(body) => ([body] + more, error)
               case Blank(_) => (more, error)
               case Line(text, _) => ([Encode(text)] + more, error)
  {
    hide Encode, FrameOf, Trim, ParseContentLength;
    match item
    case Framed(body) => FrameRead(body, rest);
    case Blank(text) =>
      ReadLineFirst(text, rest);
      SameFirstFrame(Encode(text + "\n") + rest, rest);
    case Line(text, crlf) => LineMessageRead(text, crlf, rest);
  }

  lemma SameFirstFrame(a: Bytes, b: Bytes)
    requires ReadFrame(a) == ReadFrame(b)
    ensures ReadAll(a) == ReadAll(b)
  {
  }

  /** Frames written one after the other. */
  function WrittenFrames(bodies: seq<Bytes>): Bytes {
    if bodies == [] then [] else FrameOf(bodies[0]) + WrittenFrames(bodies[1..])
  }

  function FrameItems(bodies: seq<Bytes>): seq<Item> {
    Map(body => Framed(body), bodies)
  }

  lemma {:induction false} FrameItemsAre(bodies: seq<Bytes>)
    ensures RenderAll(FrameItems(bodies)) == WrittenFrames(bodies) && Payloads(FrameItems(bodies)) == bodies
    decreases |bodies|
  {
    hide FrameOf;
    if bodies == [] {
    } else {
      FrameItemsAre(bodies[1..]);
      assert FrameItems(bodies)[1..] == FrameItems(bodies[1..]);
    }
  }

  /** Reading any frames that were written returns their bodies and then the end of the stream. */
  lemma {:induction false} FramesRoundTrip(bodies: seq<Bytes>)
    requires forall i :: 0 <= i < |bodies| ==> |bodies[i]| <= MAX_FRAME_SIZE
    ensures ReadAll(WrittenFrames(bodies)) == (bodies, None)
  {
    FrameItemsAre(bodies);
    ReadAllUndoesRender(FrameItems(bodies));
  }
}
