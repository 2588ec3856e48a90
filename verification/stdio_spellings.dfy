/**
 Every spelling of a frame: letter case and white space of the header, a plus sign and zeros in front of
 the number, other headers, either line end. And what each broken stream fails with.
 */
module StdioSpellings {
  import opened Wrappers
  import opened Strings
  import opened Integers
  import opened Utf8
  import opened Stdio
  import opened StdioRoundTrip

  // ---- numbers --------------------------------------------------------------------------

  function Zeros(k: nat): (s: string)
    ensures |s| == k && forall i :: 0 <= i < k ==> s[i] == '0'
  {
    seq(k, i requires 0 <= i < k => '0')
  }

  /** A number as it may be written. */
  function Number(plus: bool, zeros: nat, n: nat): string {
    (if plus then "+" else "") + Zeros(zeros) + Decimal(n)
  }

  lemma {:induction false} ZerosAddNothing(zeros: nat, s: string)
    requires AllDigits(s)
    ensures AllDigits(Zeros(zeros) + s) && DigitsValue(Zeros(zeros) + s) == DigitsValue(s)
    decreases zeros + |s|
  {
    var all := Zeros(zeros) + s;
    if s != "" {
      assert all[..|all| - 1] == Zeros(zeros) + s[..|s| - 1];
      ZerosAddNothing(zeros, s[..|s| - 1]);
    } else if zeros > 0 {
      assert all[..|all| - 1] == Zeros(zeros - 1) + "";
      ZerosAddNothing(zeros - 1, "");
    }
  }

  lemma {:induction false} DigitsAreNumber(s: string) returns (zeros: nat)
    requires s != "" && AllDigits(s)
    ensures s == Zeros(zeros) + Decimal(DigitsValue(s))
    decreases |s|
  {
    var m := |s| - 1;
    if m == 0 {
      zeros := 0;
      OneDigit(s[0]);
      assert s[..m] == "" && Zeros(0) + [s[0]] == s;
    } else {
      zeros := DigitsAreNumber(s[..m]);
      zeros := MoreDigits(zeros, DigitsValue(s[..m]), s[m]);
      assert s == s[..m] + [s[m]];
    }
  }

  lemma OneDigit(c: char)
    requires IsDigit(c)
    ensures Decimal(c as int - '0' as int) == [c]
  {
  }

  lemma MoreDigits(zeros: nat, n: nat, c: char) returns (zeros': nat)
    requires IsDigit(c)
    ensures Zeros(zeros) + Decimal(n) + [c] == Zeros(zeros') + Decimal(10 * n + (c as int - '0' as int))
  {
    OneDigit(c);
    if n == 0 {
      zeros' := zeros + 1;
      assert Decimal(n) == "0" && Zeros(zeros) + "0" == Zeros(zeros');
    } else {
      zeros' := zeros;
      var m := 10 * n + (c as int - '0' as int);
      assert m / 10 == n && m % 10 == c as int - '0' as int;
      Regroup(Zeros(zeros), Decimal(n), [c]);
    }
  }

  /** What reads as a number: digits, perhaps behind a plus sign and zeros, below 2 to the 64. */
  lemma {:induction false} NumberIff(s: string, n: nat)
    ensures ParseUsize(s) == Some(n)
            <==> n < 0x1_0000_0000_0000_0000 && exists plus, zeros :: s == Number(plus, zeros, n)
  {
    hide Decimal;
    if ParseUsize(s) == Some(n) {
      var plus := s[0] == '+';
      var zeros := DigitsAreNumber(if plus then s[1..] else s);
      assert plus ==> s == "+" + s[1..];
      assert s == Number(plus, zeros, n);
    }
    if plus, zeros :| s == Number(plus, zeros, n) && n < 0x1_0000_0000_0000_0000 {
      NumberRead(plus, zeros, n);
    }
  }

  lemma NumberRead(plus: bool, zeros: nat, n: nat)
    requires n <= USIZE_MAX
    ensures ParseUsize(Number(plus, zeros, n)) == Some(n)
    ensures Number(plus, zeros, n) != "" && forall c :: c in Number(plus, zeros, n) ==> c == '+' || IsDigit(c)
  {
    var s, digits := Number(plus, zeros, n), Zeros(zeros) + Decimal(n);
    DecimalValue(n);
    ZerosAddNothing(zeros, Decimal(n));
    assert plus ==> s == "+" + digits && s[1..] == digits;
    assert !plus ==> s == digits;
    assert IsDigit(digits[0]);
    forall c | c in s ensures c == '+' || IsDigit(c) {
      if c != '+' { assert c in digits; }
    }
  }

  // ---- the header line ----------------------------------------------------------------------

  /** White space within a line. */
  predicate Space(s: string) { forall c :: c in s ==> IsWhitespace(c) && c != '\n' }

  /** A header line without its line feed; `value` is any text. */
  function HeaderText(before: string, name: string, after: string, value: string): string {
    before + name + after + ":" + value
  }

  predicate HeaderName(name: string) { Lower(name) == "content-length" }

  lemma NameLetters(name: string)
    requires HeaderName(name)
    ensures name != "" && ':' !in name && '\n' !in name && !IsWhitespace(name[0]) && !IsWhitespace(name[|name| - 1])
  {
    assert forall c :: c in "content-length" ==> c == '-' || 'a' <= c <= 'z';
    forall i | 0 <= i < |name| ensures name[i] == '-' || 'a' <= name[i] <= 'z' || 'A' <= name[i] <= 'Z' {
      assert Lower(name)[i] == LowerChar(name[i]) && Lower(name)[i] in "content-length";
    }
  }

  /** The name is recognized in any letter case and with white space around; the value decides. */
  lemma {:induction false} HeaderRead(before: string, name: string, after: string, value: string)
    requires Space(before) && HeaderName(name) && Space(after)
    ensures ParseContentLength(HeaderText(before, name, after, value))
            == match ParseUsize(Trim(value)) case Some(n) => Ok(Some(n)) case None => Err(BadLength)
  {
    hide Lower, TrimBy, IsWhitespace, ParseUsize;
    var front := before + name + after;
    var line := front + ":" + value;
    NameLetters(name);
    NoColon(before);
    NoColon(after);
    FindFirst(front, ':', value);
    assert line[..|front|] == front && line[|front| + 1..] == value;
    TrimAround(before, name, after, IsWhitespace);
  }

  lemma NoColon(s: string)
    requires Space(s)
    ensures ':' !in s && '\n' !in s
  {
  }

  lemma HeaderIsLine(before: string, name: string, after: string, value: string)
    requires Space(before) && HeaderName(name) && Space(after) && '\n' !in value
    ensures '\n' !in HeaderText(before, name, after, value)
    ensures Trim(HeaderText(before, name, after, value) + "\n") != ""
  {
    hide Lower, IsWhitespace, Trim;
    NameLetters(name);
    NoColon(before);
    NoColon(after);
    NonBlankText(before, name[0], name[1..] + after + ":" + value + "\n");
    assert HeaderText(before, name, after, value) + "\n"
           == before + [name[0]] + (name[1..] + after + ":" + value + "\n");
  }

  lemma NonBlankText(before: string, c: char, rest: string)
    requires Space(before) && !IsWhitespace(c)
    ensures Trim(before + [c] + rest) != ""
  {
    hide IsWhitespace;
    var s := [c] + rest;
    Regroup(before, [c], rest);
    TrimStartAround(before, s, IsWhitespace);
    NonBlankStart(s);
  }

  // ---- other headers -------------------------------------------------------------------------

  /** Lines that are not empty, each without its line feed. */
  predicate OtherHeaders(lines: seq<string>) {
    forall i :: 0 <= i < |lines| ==> '\n' !in lines[i] && lines[i] != "" && lines[i] != "\r"
  }

  function Headers(lines: seq<string>): Bytes {
    if lines == [] then [] else Encode(lines[0] + "\n") + Headers(lines[1..])
  }

  /** The other headers are skipped. */
  lemma {:induction false} HeadersSkipped(lines: seq<string>, rest: Bytes)
    requires OtherHeaders(lines)
    ensures SkipHeaders(Headers(lines) + rest) == SkipHeaders(rest)
    decreases |lines|
  {
    hide Encode, Decode, Valid, LineEnd;
    if lines == [] {
      assert Headers(lines) + rest == rest;
    } else {
      var line, tail := Encode(lines[0] + "\n"), Headers(lines[1..]) + rest;
      Regroup(line, Headers(lines[1..]), rest);
      LineRead(lines[0], tail);
      EncodeLine(lines[0]);
      NotEmptyLine(lines[0]);
      HeadersSkipped(lines[1..], rest);
    }
  }

  lemma NotEmptyLine(line: string)
    requires line != "" && line != "\r"
    ensures line + "\n" != "\n" && line + "\n" != "\r\n"
  {
    assert (line + "\n")[..|line|] == line;
    assert "\r\n"[..1] == "\r";
  }

  function EmptyLine(crlf: bool): Bytes { Encode(if crlf then "\r\n" else "\n") }

  lemma EmptyLineEnds(crlf: bool, body: Bytes)
    ensures SkipHeaders(EmptyLine(crlf) + body) == Ok(body)
  {
    hide Encode, Decode, Valid, LineEnd;
    if crlf {
      EmptyHeaderEndsHeaders(body);
    } else {
      assert "" + "\n" == "\n";
      LineRead("", body);
      EncodeLine("");
    }
  }

  // ---- what is read ----------------------------------------------------------------------------

  lemma HeaderFirst(header: string, rest: Bytes)
    requires '\n' !in header && Trim(header + "\n") != ""
    ensures ReadFrame(Encode(header + "\n") + rest) == MessageAt(header + "\n", rest)
  {
    hide Encode, MessageAt, Trim, ReadFrame;
    ReadLineFirst(header, rest);
  }

  /** The value of the header, with the line feed that ends the line. */
  lemma HeaderWithValue(before: string, name: string, after: string, value: string)
    ensures HeaderText(before, name, after, value) + "\n" == HeaderText(before, name, after, value + "\n")
  {
    Regroup(before + name + after + ":", value, "\n");
  }

  lemma NumberInLine(pad: string, number: string, end: string)
    requires Space(pad) && Space(end)
    requires number != "" && forall c :: c in number ==> c == '+' || IsDigit(c)
    ensures Trim(pad + number + end + "\n") == number && '\n' !in pad + number + end
  {
    hide IsWhitespace;
    NotSpace(number[0]);
    NotSpace(number[|number| - 1]);
    NewLineIsSpace();
    Regroup(pad + number, end, "\n");
    TrimAround(pad, number, end + "\n", IsWhitespace);
  }

  lemma NotSpace(c: char)
    requires c == '+' || IsDigit(c)
    ensures !IsWhitespace(c)
  {
  }

  lemma NewLineIsSpace()
    ensures IsWhitespace('\n')
  {
  }

  /**
   However header and number are spelled, and whatever other headers follow: the frame is refused when
   its length is above 10 MiB, cut off when fewer bytes come, and else read to that length.
   */
  lemma {:induction false} SpelledFrameRead(
      before: string, name: string, after: string, pad: string, plus: bool, zeros: nat, n: nat, end: string,
      others: seq<string>, crlf: bool, tail: Bytes)
    requires Space(before) && HeaderName(name) && Space(after) && Space(pad) && Space(end) && OtherHeaders(others)
    requires n < 0x1_0000_0000_0000_0000
    ensures var header := HeaderText(before, name, after, pad + Number(plus, zeros, n) + end) + "\n";
            ReadFrame(Encode(header) + (Headers(others) + (EmptyLine(crlf) + tail)))
            == if n > 10 * 1024 * 1024 then Failed(TooLong)
               else if |tail| < n then Failed(BodyCutOff)
               else Frame(tail[..n], tail[n..])
  {
    hide Encode, HeaderText, HeaderName, Space, OtherHeaders, Trim, Number, ParseContentLength, SkipHeaders, ReadFrame;
    hide Headers, EmptyLine;
    var value := pad + Number(plus, zeros, n) + end;
    var rest := Headers(others) + (EmptyLine(crlf) + tail);
    NumberRead(plus, zeros, n);
    NumberInLine(pad, Number(plus, zeros, n), end);
    HeaderIsLine(before, name, after, value);
    HeaderWithValue(before, name, after, value);
    HeaderRead(before, name, after, value + "\n");
    HeaderFirst(HeaderText(before, name, after, value), rest);
    HeadersSkipped(others, EmptyLine(crlf) + tail);
    EmptyLineEnds(crlf, tail);
  }

  /** A stream that ends before the empty line fails so. */
  lemma {:induction false} HeadersCutOffRead(
      before: string, name: string, after: string, pad: string, plus: bool, zeros: nat, n: nat, end: string,
      others: seq<string>)
    requires Space(before) && HeaderName(name) && Space(after) && Space(pad) && Space(end) && OtherHeaders(others)
    requires n <= 10 * 1024 * 1024
    ensures var header := HeaderText(before, name, after, pad + Number(plus, zeros, n) + end) + "\n";
            ReadFrame(Encode(header) + Headers(others)) == Failed(HeadersCutOff)
  {
    hide Encode, HeaderText, HeaderName, Space, OtherHeaders, Trim, Number, ParseContentLength, ReadFrame, Headers;
    hide SkipHeaders;
    var value := pad + Number(plus, zeros, n) + end;
    NumberRead(plus, zeros, n);
    NumberInLine(pad, Number(plus, zeros, n), end);
    HeaderIsLine(before, name, after, value);
    HeaderWithValue(before, name, after, value);
    HeaderRead(before, name, after, value + "\n");
    HeaderFirst(HeaderText(before, name, after, value), Headers(others));
    HeadersSkipped(others, []);
    assert Headers(others) + [] == Headers(others);
    NothingLeft();
  }

  lemma NothingLeft()
    ensures SkipHeaders([]) == Err(HeadersCutOff)
  {
  }

  /** A length that is no number of 64 bits is refused, whatever follows. */
  lemma {:induction false} BadLengthRead(before: string, name: string, after: string, value: string, rest: Bytes)
    requires Space(before) && HeaderName(name) && Space(after) && '\n' !in value
    requires forall plus, zeros, n :: Trim(value + "\n") == Number(plus, zeros, n) ==> n >= 0x1_0000_0000_0000_0000
    ensures ReadFrame(Encode(HeaderText(before, name, after, value) + "\n") + rest) == Failed(BadLength)
  {
    hide Encode, HeaderText, HeaderName, Space, Trim, Number, ParseContentLength, ReadFrame, ParseUsize;
    HeaderIsLine(before, name, after, value);
    HeaderWithValue(before, name, after, value);
    HeaderRead(before, name, after, value + "\n");
    HeaderFirst(HeaderText(before, name, after, value), rest);
    var parsed := ParseUsize(Trim(value + "\n"));
    if parsed.Some? { NumberIff(Trim(value + "\n"), parsed.value); }
  }

  /** A line that is not UTF-8 is refused. */
  lemma {:induction false} BadTextRead(line: Bytes, rest: Bytes)
    requires 10 !in line && !Valid(line + [10])
    ensures ReadFrame(line + [10] + rest) == Failed(BadUtf8)
  {
    hide Valid;
    FindFirst(line, 10, rest);
    assert (line + [10] + rest)[..|line| + 1] == line + [10];
  }

  /** A message on the last line needs no line feed. */
  lemma {:induction false} LastLineRead(text: string)
    requires text != "" && '\n' !in text && text[|text| - 1] != '\r' && Trim(text) != ""
    requires ':' !in text || text[0] == '{' || text[0] == '['
    ensures ReadFrame(Encode(text)) == Frame(Encode(text), [])
  {
    hide Trim, Decode, Encode, Valid, ParseContentLength;
    var b := Encode(text);
    AsciiByte(text, '\n');
    FindChar(b, 10);
    DecodeEncode(text);
    assert text[|text| - 1] in text;
    TrimEndAround(text, "", IsLineBreakChar);
    assert text + "" == text;
    LastLineIsMessage(text);
    assert b[..|b|] == b && b[|b|..] == [];
    EncodeNotEmpty(text);
  }

  lemma EncodeNotEmpty(text: string)
    requires text != ""
    ensures Encode(text) != []
  {
  }

  lemma LastLineIsMessage(text: string)
    requires text != "" && (':' !in text || text[0] == '{' || text[0] == '[')
    ensures ParseContentLength(text) == Ok(None)
  {
    hide Trim, Lower, ParseUsize;
    FindChar(text, ':');
    assert ":" == [':'];
    if text[0] == '{' || text[0] == '[' { JsonIsNoHeader(text); }
  }
}
