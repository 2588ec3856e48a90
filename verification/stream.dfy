/** Streaming a response body: UTF-8 boundary buffer, SSE parser, size limit and receiver. */
module Stream {
  import opened Wrappers
  import opened Strings
  import opened Utf8
  import opened Sse

  // ---- what an unlimited stream sends ------------------------------------------

  /** The pieces of text fed to the parser, chunk by chunk, when `pending` bytes were held back. */
  function Pieces(pending: Bytes, chunks: seq<Bytes>): seq<string>
    decreases |chunks|
  {
    if chunks == [] then []
    else [Text(pending + chunks[0])] + Pieces(Pending(pending + chunks[0]), chunks[1..])
  }

  /** The bytes held back after those chunks. */
  function HeldBack(pending: Bytes, chunks: seq<Bytes>): Bytes
    decreases |chunks|
  {
    if chunks == [] then pending else HeldBack(Pending(pending + chunks[0]), chunks[1..])
  }

  /** What the chunks still send, given the held-back bytes and the parser's buffer. */
  function EventsFrom(pending: Bytes, buffer: string, chunks: seq<Bytes>): seq<SseEvent> {
    var pieces := Pieces(pending, chunks);
    Events(BlocksFed(buffer, pieces)) + OptionToSeq(FlushEvent(RestFed(buffer, pieces)))
  }

  /** Everything the body `chunks` would send if nothing stopped it. */
  function AllEvents(chunks: seq<Bytes>): seq<SseEvent> {
    EventsFrom([], "", chunks)
  }

  // ---- the UTF-8 buffer ------------------------------------------------------------

  /** One more chunk: the fed text grows to the longest valid prefix, the other bytes are kept. */
  lemma OneMoreChunk(received: Bytes, chunk: Bytes)
    ensures Pending(Pending(received) + chunk) == Pending(received + chunk)
    ensures Text(received + chunk) == Text(received) + Text(Pending(received) + chunk)
  {
    var ok, pending := Good(received), Pending(received);
    GoodAndPending(received);
    Regroup(ok, pending, chunk);
    GoodAppend(ok, pending + chunk);
  }

  /**
   After any chunks the fed text is that of the longest valid prefix of the bytes received, and
   the held-back bytes are all the others.
   */
  lemma {:induction false} BufferInvariant(received: Bytes, chunks: seq<Bytes>)
    ensures HeldBack(Pending(received), chunks) == Pending(received + Flatten(chunks))
    ensures Text(received + Flatten(chunks)) == Text(received) + Flatten(Pieces(Pending(received), chunks))
    decreases |chunks|
  {
    if chunks == [] {
      assert received + Flatten(chunks) == received;
      assert Text(received) + [] == Text(received);
    } else {
      var chunk := chunks[0];
      OneMoreChunk(received, chunk);
      BufferInvariant(received + chunk, chunks[1..]);
      Regroup(received, chunk, Flatten(chunks[1..]));
      var piece := Text(Pending(received) + chunk);
      var others := Pieces(Pending(received + chunk), chunks[1..]);
      assert ([piece] + others)[1..] == others;
      Regroup(Text(received), piece, Flatten(others));
    }
  }

  /** Whatever the cuts, the parser is fed the text of the longest valid prefix of the body. */
  lemma FedText(chunks: seq<Bytes>)
    ensures Flatten(Pieces([], chunks)) == Text(Flatten(chunks))
    ensures HeldBack([], chunks) == Pending(Flatten(chunks))
  {
    BufferInvariant([], chunks);
    assert [] + Flatten(chunks) == Flatten(chunks);
    assert Text([]) == "";
    assert "" + Flatten(Pieces([], chunks)) == Flatten(Pieces([], chunks));
  }

  /** While a valid body arrives, at most three bytes are held back. */
  lemma FewBytesHeldBack(chunks: seq<Bytes>, rest: Bytes)
    requires Valid(Flatten(chunks) + rest)
    ensures |HeldBack([], chunks)| <= 3
  {
    FedText(chunks);
    AtMostThreePending(Flatten(chunks), rest);
  }

  /** Held-back bytes are never a text by themselves. */
  lemma LeftoverIsNotText(chunks: seq<Bytes>)
    ensures Valid(HeldBack([], chunks)) ==> HeldBack([], chunks) == []
  {
    var body := Flatten(chunks);
    FedText(chunks);
    GoodAndPending(body);
    GoodAppend(Good(body), Pending(body));
  }

  // ---- chunking is invisible ----------------------------------------------------------

  /** The events of one `feed` of the whole decoded text followed by `flush`. */
  function WholeEvents(text: string): seq<SseEvent> {
    Events(Blocks(text)) + OptionToSeq(FlushEvent(Rest(text)))
  }

  /** Every cutting of the body into chunks sends the events of the body read as a whole. */
  lemma {:induction false} ChunkingInvisible(chunks: seq<Bytes>)
    requires LfBlanksFirst(Text(Flatten(chunks)))
    ensures AllEvents(chunks) == WholeEvents(Text(Flatten(chunks)))
  {
    FedText(chunks);
    CutsInvisibleIff(Text(Flatten(chunks)));
  }

  // ---- events are no longer than the bytes they come from ---------------------------------

  /** The payload of some events in bytes. */
  function Payload(events: seq<SseEvent>): nat {
    if events == [] then 0 else |Encode(events[0].data)| + Payload(events[1..])
  }

  lemma {:induction false} PayloadAppend(a: seq<SseEvent>, b: seq<SseEvent>)
    ensures Payload(a + b) == Payload(a) + Payload(b)
  {
    if a == [] {
      assert a + b == b;
    } else {
      assert (a + b)[1..] == a[1..] + b;
      PayloadAppend(a[1..], b);
    }
  }

  /** The bytes of some lines, one byte more for each line. */
  function LineBytes(lines: seq<string>): nat {
    if lines == [] then 0 else |Encode(lines[0])| + 1 + LineBytes(lines[1..])
  }

  lemma {:induction false} LineBytesAppend(a: seq<string>, b: seq<string>)
    ensures LineBytes(a + b) == LineBytes(a) + LineBytes(b)
  {
    if a == [] {
      assert a + b == b;
    } else {
      assert (a + b)[1..] == a[1..] + b;
      LineBytesAppend(a[1..], b);
    }
  }

  lemma {:induction false} JoinBytes(lines: seq<string>)
    requires lines != []
    ensures |Encode(Join(lines, "\n"))| + 1 == LineBytes(lines)
  {
    if |lines| > 1 {
      var t := Join(lines[1..], "\n");
      EncodeAppend(lines[0] + "\n", t);
      EncodeAppend(lines[0], "\n");
      assert |Encode("\n")| == 1 by { assert "\n"[1..] == ""; }
      JoinBytes(lines[1..]);
    }
  }

  lemma SuffixBytes(s: string, n: nat)
    requires n <= |s|
    ensures |Encode(s[n..])| <= |Encode(s)|
  {
    EncodeAppend(s[..n], s[n..]);
    assert s[..n] + s[n..] == s;
  }

  lemma PrefixBytes(s: string, t: string)
    requires t <= s
    ensures |Encode(t)| <= |Encode(s)|
  {
    EncodeAppend(t, s[|t|..]);
    assert t + s[|t|..] == s;
  }

  lemma PartBytes(s: string, i: nat, j: nat)
    requires i <= j <= |s|
    ensures |Encode(s[..i])| + |Encode(s[j..])| <= |Encode(s)|
  {
    PrefixBytes(s[..j], s[..i]);
    EncodeAppend(s[..j], s[j..]);
    assert s[..j] + s[j..] == s;
  }

  lemma {:induction false} LinesBytes(s: string)
    ensures LineBytes(Lines(s)) <= |Encode(s)| + 1
    decreases |s|
  {
    if s == [] {
    } else {
      match Find(s, "\n")
      case None =>
      case Some(i) =>
        var line := s[..i];
        LinesBytes(s[i + 1..]);
        LineBreakBytes(s, i);
        PrefixBytes(line, StripCr(line));
        assert ([StripCr(line)] + Lines(s[i + 1..]))[1..] == Lines(s[i + 1..]);
    }
  }

  lemma LineBreakBytes(s: string, i: nat)
    requires Find(s, "\n") == Some(i)
    ensures |Encode(s[..i])| + 1 + |Encode(s[i + 1..])| <= |Encode(s)|
  {
    var a, b := s[..i], s[i + 1..];
    assert s == a + [s[i]] + b;
    EncodeAppend(a + [s[i]], b);
    EncodeAppend(a, [s[i]]);
    EncodeCons(s[i], []);
  }

  /** The value of a `data` line is shorter than the line. */
  lemma ValueBytes(line: string)
    ensures match FieldOf(line) case Data(v) => |Encode(v)| <= |Encode(line)| case _ => true
  {
    if FieldOf(line).Data? {
      var v := FieldOf(line).value;
      assert v == line[|line| - |v|..];
      SuffixBytes(line, |line| - |v|);
    }
  }

  lemma {:induction false} DataBytes(lines: seq<string>)
    ensures LineBytes(DataValues(lines)) <= LineBytes(lines)
  {
    if lines == [] {
    } else {
      var init, line := lines[..|lines| - 1], lines[|lines| - 1];
      assert lines == init + [line];
      DataBytes(init);
      ValueBytes(line);
      LineBytesAppend(init, [line]);
      OneLineBytes(line);
      match FieldOf(line)
      case Data(v) =>
        LineBytesAppend(DataValues(init), [v]);
        OneLineBytes(v);
      case _ =>
        assert DataValues(init) + [] == DataValues(init);
    }
  }

  lemma OneLineBytes(line: string)
    ensures LineBytes([line]) == |Encode(line)| + 1
  {
    assert [line][1..] == [];
  }

  lemma BlockBytes(block: string)
    ensures Payload(OptionToSeq(BlockEvent(block))) <= |Encode(block)|
  {
    var values := DataValues(Lines(block));
    if values != [] {
      var e := BlockEvent(block).value;
      assert [e][1..] == [];
      DataBytes(Lines(block));
      LinesBytes(block);
      JoinBytes(values);
    }
  }

  lemma PayloadOfCons(block: string, blocks: seq<string>)
    ensures Payload(Events([block] + blocks))
            == Payload(OptionToSeq(BlockEvent(block))) + Payload(Events(blocks))
  {
    EventsOfCons(block, blocks);
    PayloadAppend(OptionToSeq(BlockEvent(block)), Events(blocks));
  }

  /** One block in front: the sum of `BlocksBytes` for the step of its induction. */
  lemma {:induction false} BlocksBytesStep(block: string, blocks: seq<string>, rest: nat, tail: nat, all: nat)
    requires Payload(Events(blocks)) + rest <= tail
    requires |Encode(block)| + tail <= all
    ensures Payload(Events([block] + blocks)) + rest <= all
  {
    PayloadOfCons(block, blocks);
    BlockBytes(block);
  }

  lemma NoEventsNoPayload()
    ensures Payload(Events([])) == 0
  {
  }

  lemma {:induction false} BlocksBytes(s: string)
    ensures Payload(Events(Blocks(s))) + |Encode(Rest(s))| <= |Encode(s)|
    decreases |s|
  {
    hide Boundary, Events, Payload, Encode, BlockEvent;
    match Boundary(s)
    case None =>
      NoEventsNoPayload();
    case Some((i, n)) =>
      var tail := s[i + n..];
      BlocksBytes(tail);
      PartBytes(s, i, i + n);
      BlocksBytesStep(s[..i], Blocks(tail), |Encode(Rest(tail))|, |Encode(tail)|, |Encode(s)|);
  }

  lemma TrimBytes(s: string, ws: char -> bool)
    ensures |Encode(TrimBy(s, ws))| <= |Encode(s)|
  {
    var start := TrimStart(s, ws);
    var both := TrimEnd(start, ws);
    TrimStartIsSuffix(s, ws);
    TrimEndIsPrefix(start, ws);
    SuffixBytes(s, |s| - |start|);
    PrefixBytes(start, both);
  }

  lemma FlushBytes(rest: string)
    ensures Payload(OptionToSeq(FlushEvent(rest))) <= |Encode(rest)|
  {
    TrimBytes(rest, IsWhitespace);
    BlockBytes(Trim(rest));
  }

  lemma {:induction false} FedBytes(buffer: string, pieces: seq<string>)
    ensures Payload(Events(BlocksFed(buffer, pieces))) + |Encode(RestFed(buffer, pieces))|
            <= |Encode(buffer)| + |Encode(Flatten(pieces))|
    decreases |pieces|
  {
    if pieces == [] {
    } else {
      var s := buffer + pieces[0];
      FedBytes(Rest(s), pieces[1..]);
      BlocksBytes(s);
      EncodeAppend(buffer, pieces[0]);
      EncodeAppend(pieces[0], Flatten(pieces[1..]));
      EventsAppend(Blocks(s), BlocksFed(Rest(s), pieces[1..]));
      PayloadAppend(Events(Blocks(s)), Events(BlocksFed(Rest(s), pieces[1..])));
    }
  }

  /** All that a body sends is at most as long as the body. */
  lemma AllEventsFit(chunks: seq<Bytes>)
    ensures Payload(AllEvents(chunks)) <= |Flatten(chunks)|
  {
    var pieces := Pieces([], chunks);
    FedText(chunks);
    FedBytes("", pieces);
    FlushBytes(RestFed("", pieces));
    PayloadAppend(Events(BlocksFed("", pieces)), OptionToSeq(FlushEvent(RestFed("", pieces))));
    assert |Good(Flatten(chunks))| <= |Flatten(chunks)|;
  }
}
