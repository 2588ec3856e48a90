/** The streaming loop: it delivers a prefix of what the body would send, within the size limit. */
module Streaming {
  import opened Wrappers
  import opened Strings
  import opened Integers
  import opened Utf8
  import opened Sse
  import opened Stream

  datatype StreamChunk = StreamChunk(data: Bytes, contentType: Option<string>)

  /** The sending half of the channel. The receiver is dropped after taking `room` chunks, if ever. */
  class Sender {
    var delivered: seq<StreamChunk>
    const room: Option<nat>

    constructor (room: Option<nat>)
      ensures delivered == [] && this.room == room
    {
      this.room := room;
      delivered := [];
    }

    predicate Open()
      reads this
    {
      room.None? || |delivered| < room.value
    }

    method Send(chunk: StreamChunk) returns (ok: bool)
      modifies this
      ensures ok == old(Open())
      ensures delivered == if ok then old(delivered) + [chunk] else old(delivered)
    {
      ok := Open();
      if ok {
        delivered := delivered + [chunk];
      }
    }
  }

  function EventChunks(events: seq<SseEvent>): seq<StreamChunk> {
    if events == [] then []
    else [StreamChunk(Encode(events[0].data), None)] + EventChunks(events[1..])
  }

  lemma {:induction false} EventChunksAppend(a: seq<SseEvent>, b: seq<SseEvent>)
    ensures EventChunks(a + b) == EventChunks(a) + EventChunks(b)
  {
    if a == [] {
      assert a + b == b;
    } else {
      assert (a + b)[1..] == a[1..] + b;
      EventChunksAppend(a[1..], b);
    }
  }

  lemma OneEventChunk(e: SseEvent)
    ensures EventChunks([e]) == [StreamChunk(Encode(e.data), None)]
  {
    assert [e][1..] == [];
  }

  function BodyChunks(chunks: seq<Bytes>, contentType: Option<string>): (cs: seq<StreamChunk>)
    ensures |cs| == |chunks|
  {
    seq(|chunks|, i requires 0 <= i < |chunks| => StreamChunk(chunks[i], contentType))
  }

  function DataBytes(cs: seq<StreamChunk>): nat {
    if cs == [] then 0 else |cs[0].data| + DataBytes(cs[1..])
  }

  lemma {:induction false} DataBytesAppend(a: seq<StreamChunk>, b: seq<StreamChunk>)
    ensures DataBytes(a + b) == DataBytes(a) + DataBytes(b)
  {
    if a == [] {
      assert a + b == b;
    } else {
      assert (a + b)[1..] == a[1..] + b;
      DataBytesAppend(a[1..], b);
    }
  }

  lemma {:induction false} EventChunksBytes(events: seq<SseEvent>)
    ensures DataBytes(EventChunks(events)) == Payload(events)
  {
    if events == [] {
    } else {
      EventChunksBytes(events[1..]);
      assert EventChunks(events)[1..] == EventChunks(events[1..]);
    }
  }

  lemma {:induction false} BodyChunksBytes(chunks: seq<Bytes>, contentType: Option<string>)
    ensures DataBytes(BodyChunks(chunks, contentType)) == |Flatten(chunks)|
  {
    if chunks == [] {
    } else {
      assert BodyChunks(chunks, contentType)[1..] == BodyChunks(chunks[1..], contentType);
      BodyChunksBytes(chunks[1..], contentType);
    }
  }

  lemma PrefixFits(sent: seq<StreamChunk>, all: seq<StreamChunk>)
    requires sent <= all
    ensures DataBytes(sent) <= DataBytes(all)
  {
    DataBytesAppend(sent, all[|sent|..]);
    assert all == sent + all[|sent|..];
  }

  // ---- the body as it arrives ------------------------------------------------------------

  /** The chunks that arrive, and whether the connection breaks after them. */
  datatype Body = Body(chunks: seq<Bytes>, broken: bool)

  predicate IsEventStream(contentType: Option<string>) {
    contentType.Some? && StartsWith(contentType.value, "text/event-stream")
  }

  /** What an unlimited stream to a patient receiver delivers. */
  function Unlimited(chunks: seq<Bytes>, contentType: Option<string>): seq<StreamChunk> {
    if IsEventStream(contentType) then EventChunks(AllEvents(chunks))
    else BodyChunks(chunks, contentType)
  }

  /**
   Every type that begins with `text/event-stream`, whatever parameters follow, sends one chunk an
   event, with no content type.
   */
  lemma {:induction false} EventStreamTypes(chunks: seq<Bytes>, params: string)
    ensures var sent, events := Unlimited(chunks, Some("text/event-stream" + params)), AllEvents(chunks);
            |sent| == |events| && forall i :: 0 <= i < |sent| ==> sent[i] == StreamChunk(Encode(events[i].data), None)
    ensures Unlimited(chunks, Some("text/event-stream" + params)) == EventChunks(AllEvents(chunks))
  {
    hide AllEvents;
    TypeBegins(params);
    EventChunksAt(AllEvents(chunks));
  }

  lemma TypeBegins(params: string)
    ensures IsEventStream(Some("text/event-stream" + params))
  {
    assert ("text/event-stream" + params)[..|"text/event-stream"|] == "text/event-stream";
  }

  lemma TypeSplits(contentType: Option<string>) returns (params: string)
    requires IsEventStream(contentType)
    ensures contentType == Some("text/event-stream" + params)
  {
    var name := "text/event-stream";
    params := contentType.value[|name|..];
    assert contentType.value == name + params;
  }

  /** No type, and every other type, sends the chunks of the body as they are, with that type. */
  lemma OtherTypes(chunks: seq<Bytes>, contentType: Option<string>)
    requires forall params :: contentType != Some("text/event-stream" + params)
    ensures var sent := Unlimited(chunks, contentType);
            |sent| == |chunks| && forall i :: 0 <= i < |sent| ==> sent[i] == StreamChunk(chunks[i], contentType)
    ensures Unlimited(chunks, contentType) == BodyChunks(chunks, contentType) && !IsEventStream(contentType)
  {
    if IsEventStream(contentType) {
      var params := TypeSplits(contentType);
      assert false;
    }
  }

  lemma {:induction false} EventChunksAt(events: seq<SseEvent>)
    ensures |EventChunks(events)| == |events|
    ensures forall i :: 0 <= i < |events| ==> EventChunks(events)[i] == StreamChunk(Encode(events[i].data), None)
  {
    if events == [] {
    } else {
      EventChunksAt(events[1..]);
    }
  }

  lemma UnlimitedFits(chunks: seq<Bytes>, contentType: Option<string>)
    ensures DataBytes(Unlimited(chunks, contentType)) <= |Flatten(chunks)|
  {
    AllEventsFit(chunks);
    EventChunksBytes(AllEvents(chunks));
    BodyChunksBytes(chunks, contentType);
  }

  /** The body stays within the limit of `max` bytes. */
  predicate Fits(chunks: seq<Bytes>, contentType: Option<string>, max: Usize) {
    && (IsEventStream(contentType) ==> BufferFits([], chunks, max))
    && Saturated(DataBytes(Unlimited(chunks, contentType))) <= max
  }

  lemma {:induction false} ShortBufferFits(seen: Bytes, chunks: seq<Bytes>, max: nat)
    requires |seen| + |Flatten(chunks)| <= max
    ensures BufferFits(seen, chunks, max)
    decreases |chunks|
  {
    if chunks == [] {
    } else {
      ShortBufferFits(seen + chunks[0], chunks[1..], max);
    }
  }

  /** A body of at most `max` bytes stays within the limit, however it is cut. */
  lemma {:induction false} ShortBodyFits(chunks: seq<Bytes>, contentType: Option<string>, max: Usize)
    requires |Flatten(chunks)| <= max
    ensures Fits(chunks, contentType, max)
  {
    UnlimitedFits(chunks, contentType);
    ShortBufferFits([], chunks, max);
  }

  /** No chunk, together with the bytes held back before it, is longer than `max`. */
  predicate BufferFits(seen: Bytes, chunks: seq<Bytes>, max: nat)
    decreases |chunks|
  {
    chunks == [] ||
    (|Pending(seen)| + |chunks[0]| <= max && BufferFits(seen + chunks[0], chunks[1..], max))
  }

  datatype Outcome = Finished | LimitExceeded | ReadFailed

  datatype SendResult = Sent | Refused | OverLimit

  /** Counts a chunk towards the limit and, while within it, sends it. */
  method CountAndSend(chunk: StreamChunk, total: Usize, max: Usize, sender: Sender, ghost all: seq<StreamChunk>)
    returns (total': Usize, result: SendResult)
    requires sender.delivered + [chunk] <= all
    requires total == Saturated(DataBytes(sender.delivered)) <= max
    modifies sender
    ensures result.OverLimit? <==> Saturated(DataBytes(old(sender.delivered) + [chunk])) > max
    ensures sender.delivered == if result.Sent? then old(sender.delivered) + [chunk] else old(sender.delivered)
    ensures result.OverLimit? ==> Saturated(DataBytes(all)) > max
    ensures result.Refused? ==> !sender.Open()
    ensures result.Sent? ==> total' == Saturated(DataBytes(sender.delivered)) <= max
  {
    DataBytesAppend(sender.delivered, [chunk]);
    assert DataBytes([chunk]) == |chunk.data| by { assert [chunk][1..] == []; }
    PrefixFits(sender.delivered + [chunk], all);
    total' := SaturatingAdd(total, |chunk.data|);
    if total' > max {
      return total', OverLimit;
    }
    var ok := sender.Send(chunk);
    result := if ok then Sent else Refused;
  }

  lemma NextEventChunk(before: seq<SseEvent>, events: seq<SseEvent>, after: seq<SseEvent>, i: nat)
    requires i < |events|
    ensures EventChunks(before + events[..i]) + [StreamChunk(Encode(events[i].data), None)]
            == EventChunks(before + events[..i + 1])
            <= EventChunks(before + events + after)
  {
    var done, e, rest := before + events[..i], events[i], events[i + 1..] + after;
    assert done + [e] == before + events[..i + 1];
    assert done + [e] + rest == before + events + after;
    EventChunksAppend(done, [e]);
    EventChunksAppend(done + [e], rest);
    OneEventChunk(e);
  }

  /** Sends the events until one is over the limit or the receiver is gone. */
  method SendEvents(events: seq<SseEvent>, total: Usize, max: Usize, sender: Sender,
                    ghost before: seq<SseEvent>, ghost after: seq<SseEvent>)
    returns (total': Usize, result: SendResult)
    requires sender.delivered == EventChunks(before)
    requires total == Saturated(Payload(before)) <= max
    modifies sender
    ensures result.Sent? ==> sender.delivered == EventChunks(before + events)
    ensures result.Sent? ==> total' == Saturated(Payload(before + events)) <= max
    ensures sender.delivered <= EventChunks(before + events + after)
    ensures Saturated(DataBytes(sender.delivered)) <= max
    ensures result.OverLimit? ==> Saturated(Payload(before + events + after)) > max
    ensures result.Refused? ==> !sender.Open()
  {
    hide *;
    ghost var all := before + events + after;
    EventChunksBytes(before);
    EventChunksBytes(all);
    EventChunksAppend(before + events, after);
    EventChunksAppend(before, events);
    total', result := total, Sent;
    assert before + events[..0] == before;
    for i := 0 to |events|
      invariant sender.delivered == EventChunks(before + events[..i])
      invariant sender.delivered <= EventChunks(all)
      invariant total' == Saturated(DataBytes(sender.delivered)) <= max
      invariant result.Sent?
    {
      var chunk := StreamChunk(Encode(events[i].data), None);
      NextEventChunk(before, events, after, i);
      total', result := CountAndSend(chunk, total', max, sender, EventChunks(all));
      if !result.Sent? {
        return;
      }
    }
    assert events[..|events|] == events;
    EventChunksBytes(before + events);
  }

  lemma EventsFromStep(pending: Bytes, buffer: string, chunks: seq<Bytes>)
    requires chunks != []
    ensures var text := Text(pending + chunks[0]);
            EventsFrom(pending, buffer, chunks)
            == Events(Blocks(buffer + text))
               + EventsFrom(Pending(pending + chunks[0]), Rest(buffer + text), chunks[1..])
  {
    var text := Text(pending + chunks[0]);
    var pieces := Pieces(Pending(pending + chunks[0]), chunks[1..]);
    assert ([text] + pieces)[1..] == pieces;
    var rest := Rest(buffer + text);
    EventsAppend(Blocks(buffer + text), BlocksFed(rest, pieces));
    Regroup(Events(Blocks(buffer + text)), Events(BlocksFed(rest, pieces)),
            OptionToSeq(FlushEvent(RestFed(rest, pieces))));
  }

  /** A chunk that completes no character feeds nothing. */
  lemma NothingCompleted(pending: Bytes, buffer: string, chunks: seq<Bytes>)
    requires chunks != [] && ValidUpTo(pending + chunks[0]) == 0
    requires Blocks(buffer) == [] && Rest(buffer) == buffer
    ensures EventsFrom(pending, buffer, chunks) == EventsFrom(pending + chunks[0], buffer, chunks[1..])
    ensures Pending(pending + chunks[0]) == pending + chunks[0]
  {
    EventsFromStep(pending, buffer, chunks);
    assert Encode(Text(pending + chunks[0])) == [];
    assert buffer + "" == buffer;
  }

  lemma BufferStep(seen: Bytes, chunks: seq<Bytes>, max: nat)
    requires chunks != []
    ensures BufferFits(seen, chunks, max)
            <==> |Pending(seen) + chunks[0]| <= max && BufferFits(seen + chunks[0], chunks[1..], max)
    ensures var bytes := Pending(seen) + chunks[0]; Pending(bytes) == bytes[ValidUpTo(bytes)..]
  {
  }

  lemma NothingYet(all: seq<SseEvent>)
    ensures [] + all == all && Pending([]) == [] && EventChunks([]) == [] && Payload([]) == 0
  {
  }

  lemma NothingPending(s: Bytes)
    ensures Text(Pending(s)) == "" && (Valid(Pending(s)) ==> Pending(s) == [])
  {
    GoodAndPending(s);
    ValidAppend(Good(s), Pending(s));
    assert Encode(Text(Pending(s))) == [];
  }

  /** One chunk of an event stream: complete the text, feed it, send the events, keep the rest. */
  method HandleChunk(utf8Buffer: Bytes, chunk: Bytes, parser: SseParser, total: Usize, max: Usize, sender: Sender,
                     ghost seen: Bytes, ghost sent: seq<SseEvent>, ghost chunks: seq<Bytes>,
                     ghost all: seq<SseEvent>, ghost fits: bool)
    returns (utf8Buffer': Bytes, total': Usize, result: SendResult, ghost sent': seq<SseEvent>)
    requires chunks != [] && chunk == chunks[0]
    requires utf8Buffer == Pending(seen)
    requires Blocks(parser.buffer) == [] && Rest(parser.buffer) == parser.buffer
    requires sender.delivered == EventChunks(sent)
    requires total == Saturated(Payload(sent)) <= max
    requires sent + EventsFrom(utf8Buffer, parser.buffer, chunks) == all
    requires fits == BufferFits(seen, chunks, max)
    modifies parser, sender
    ensures sender.delivered <= EventChunks(all) && Saturated(DataBytes(sender.delivered)) <= max
    ensures result.OverLimit? ==> Saturated(Payload(all)) > max || !fits
    ensures result.Refused? ==> !sender.Open()
    ensures result.Sent? ==>
              && utf8Buffer' == Pending(seen + chunk) && fits == BufferFits(seen + chunk, chunks[1..], max)
              && Blocks(parser.buffer) == [] && Rest(parser.buffer) == parser.buffer
              && sender.delivered == EventChunks(sent')
              && total' == Saturated(Payload(sent')) <= max
              && sent' + EventsFrom(utf8Buffer', parser.buffer, chunks[1..]) == all
  {
    hide *;
    utf8Buffer', total', sent' := utf8Buffer + chunk, total, sent;
    BufferStep(seen, chunks, max);
    EventChunksBytes(sent);
    EventChunksAppend(sent, EventsFrom(utf8Buffer, parser.buffer, chunks));
    if |utf8Buffer'| > max {
      return utf8Buffer', total', OverLimit, sent';
    }
    OneMoreChunk(seen, chunk);
    var validUpTo := ValidUpTo(utf8Buffer');
    if validUpTo == 0 {
      NothingCompleted(utf8Buffer, parser.buffer, chunks);
      return utf8Buffer', total', Sent, sent';
    }
    EventsFromStep(utf8Buffer, parser.buffer, chunks);
    var text := Text(utf8Buffer');
    ghost var buffered := parser.buffer;
    var events := parser.Feed(text);
    RestHasNoBlock(buffered + text);
    utf8Buffer' := utf8Buffer'[validUpTo..];
    ghost var after := EventsFrom(utf8Buffer', parser.buffer, chunks[1..]);
    Regroup(sent, events, after);
    total', result := SendEvents(events, total, max, sender, sent, after);
    sent' := sent + events;
  }

  /** The end of an event stream: the leftover bytes and the trailing event. */
  method FinishEvents(utf8Buffer: Bytes, parser: SseParser, total: Usize, max: Usize, sender: Sender,
                      ghost seen: Bytes, ghost sent: seq<SseEvent>, ghost all: seq<SseEvent>)
    returns (outcome: Outcome)
    requires utf8Buffer == Pending(seen)
    requires sender.delivered == EventChunks(sent)
    requires total == Saturated(Payload(sent)) <= max
    requires sent + EventsFrom(utf8Buffer, parser.buffer, []) == all
    modifies parser, sender
    ensures sender.delivered <= EventChunks(all) && Saturated(DataBytes(sender.delivered)) <= max
    ensures outcome.Finished? && sender.Open() ==> sender.delivered == EventChunks(all)
    ensures outcome.LimitExceeded? ==> Saturated(Payload(all)) > max
    ensures !outcome.ReadFailed?
  {
    hide *;
    NothingPending(seen);
    if Valid(utf8Buffer) && Text(utf8Buffer) != "" {
      // Bytes held back are never a text, so the leftover is not fed.
      assert false;
    }
    LastEvent(utf8Buffer, parser.buffer, sent, all);
    var event := parser.Flush();
    if event.None? {
      return Finished;
    }
    var _, result := SendEvents([event.value], total, max, sender, sent, []);
    return if result.OverLimit? then LimitExceeded else Finished;
  }

  /** At the end only the flushed event is still to come. */
  lemma LastEvent(pending: Bytes, buffer: string, sent: seq<SseEvent>, all: seq<SseEvent>)
    requires sent + EventsFrom(pending, buffer, []) == all
    ensures DataBytes(EventChunks(sent)) == Payload(sent) && EventChunks(sent) <= EventChunks(all)
    ensures match FlushEvent(buffer)
            case None => sent == all
            case Some(e) => sent + [e] == all && sent + [e] + [] == all
  {
    hide EventsFrom, EventChunks, DataBytes, Payload, FlushEvent;
    EventChunksBytes(sent);
    EventChunksAppend(sent, EventsFrom(pending, buffer, []));
    OnlyFlushed(pending, buffer);
    if FlushEvent(buffer).None? {
      assert sent + [] == sent;
    } else {
      assert all + [] == all;
    }
  }

  lemma OnlyFlushed(pending: Bytes, buffer: string)
    ensures EventsFrom(pending, buffer, []) == OptionToSeq(FlushEvent(buffer))
  {
    hide FlushEvent;
    assert Events(BlocksFed(buffer, [])) == [];
  }

  /** The streaming loop for an event stream: every chunk in turn, until one cannot be sent. */
  method HandleChunks(body: seq<Bytes>, parser: SseParser, max: Usize, sender: Sender,
                      ghost all: seq<SseEvent>, ghost fits: bool)
    returns (utf8Buffer: Bytes, total: Usize, result: SendResult, ghost seen: Bytes, ghost sent: seq<SseEvent>)
    requires Blocks(parser.buffer) == [] && Rest(parser.buffer) == parser.buffer
    requires sender.delivered == []
    requires EventsFrom([], parser.buffer, body) == all && BufferFits([], body, max) == fits
    modifies parser, sender
    ensures sender.delivered <= EventChunks(all) && Saturated(DataBytes(sender.delivered)) <= max
    ensures result.OverLimit? ==> Saturated(Payload(all)) > max || !fits
    ensures result.Refused? ==> !sender.Open()
    ensures result.Sent? ==>
              && fits
              && utf8Buffer == Pending(seen) && sender.delivered == EventChunks(sent)
              && total == Saturated(Payload(sent)) <= max
              && sent + EventsFrom(utf8Buffer, parser.buffer, []) == all
  {
    var chunks := body;
    hide EventsFrom, Blocks, Rest, Pending;
    utf8Buffer, total, result, seen, sent := [], 0, Sent, [], [];
    NothingYet(all);
    while chunks != []
      invariant result.Sent?
      invariant utf8Buffer == Pending(seen)
      invariant fits == BufferFits(seen, chunks, max)
      invariant Blocks(parser.buffer) == [] && Rest(parser.buffer) == parser.buffer
      invariant sender.delivered == EventChunks(sent)
      invariant total == Saturated(Payload(sent)) <= max
      invariant sent + EventsFrom(utf8Buffer, parser.buffer, chunks) == all
      decreases |chunks|
    {
      utf8Buffer, total, result, sent :=
        HandleChunk(utf8Buffer, chunks[0], parser, total, max, sender, seen, sent, chunks, all, fits);
      if !result.Sent? {
        return;
      }
      chunks, seen := chunks[1..], seen + chunks[0];
    }
    EventChunksBytes(sent);
    EventChunksAppend(sent, EventsFrom(utf8Buffer, parser.buffer, []));
  }

  /** Streaming an event stream to its end. */
  method StreamEvents(body: Body, max: Usize, sender: Sender) returns (outcome: Outcome)
    requires sender.delivered == []
    modifies sender
    ensures sender.delivered <= EventChunks(AllEvents(body.chunks))
    ensures Saturated(DataBytes(sender.delivered)) <= max
    ensures outcome.Finished? && sender.Open() ==>
              && sender.delivered == EventChunks(AllEvents(body.chunks)) && !body.broken
              && BufferFits([], body.chunks, max)
    ensures outcome.LimitExceeded? ==>
              !BufferFits([], body.chunks, max) || Saturated(Payload(AllEvents(body.chunks))) > max
    ensures outcome.ReadFailed? ==> body.broken
  {
    var parser := new SseParser();
    ghost var all, fits := AllEvents(body.chunks), BufferFits([], body.chunks, max);
    var utf8Buffer, total, result, seen, sent := HandleChunks(body.chunks, parser, max, sender, all, fits);
    if !result.Sent? {
      return if result.OverLimit? then LimitExceeded else Finished;
    }
    if body.broken {
      return ReadFailed;
    }
    outcome := FinishEvents(utf8Buffer, parser, total, max, sender, seen, sent, all);
  }

  lemma NextChunkFits(chunks: seq<Bytes>, contentType: Option<string>, i: nat)
    requires i < |chunks|
    ensures BodyChunks(chunks[..i], contentType) + [StreamChunk(chunks[i], contentType)]
            == BodyChunks(chunks[..i + 1], contentType)
            <= BodyChunks(chunks, contentType)
  {
  }

  /** The streaming loop for any other body: every chunk is sent as it is. */
  method StreamChunks(body: Body, contentType: Option<string>, max: Usize, sender: Sender) returns (outcome: Outcome)
    requires sender.delivered == []
    modifies sender
    ensures sender.delivered <= BodyChunks(body.chunks, contentType)
    ensures Saturated(DataBytes(sender.delivered)) <= max
    ensures outcome.Finished? && sender.Open() ==>
              sender.delivered == BodyChunks(body.chunks, contentType) && !body.broken
    ensures outcome.LimitExceeded? ==> Saturated(DataBytes(BodyChunks(body.chunks, contentType))) > max
    ensures outcome.ReadFailed? ==> body.broken
  {
    var chunks := body.chunks;
    var total: Usize := 0;
    for i := 0 to |chunks|
      invariant sender.delivered == BodyChunks(chunks[..i], contentType)
      invariant total == Saturated(DataBytes(sender.delivered)) <= max
    {
      NextChunkFits(chunks, contentType, i);
      var result;
      total, result := CountAndSend(StreamChunk(chunks[i], contentType), total, max, sender,
                                    BodyChunks(chunks, contentType));
      if result.OverLimit? {
        return LimitExceeded;
      }
      if result.Refused? {
        return Finished;
      }
    }
    assert chunks[..|chunks|] == chunks;
    return if body.broken then ReadFailed else Finished;
  }

  /** Streams a response body. */
  method StreamBody(body: Body, contentType: Option<string>, max: Usize, sender: Sender) returns (outcome: Outcome)
    requires sender.delivered == []
    modifies sender
    // In every run the receiver gets a prefix of the unlimited stream, within the limit.
    ensures sender.delivered <= Unlimited(body.chunks, contentType)
    ensures DataBytes(sender.delivered) <= max || max == 0xFFFF_FFFF_FFFF_FFFF
    // A receiver that stays gets all of it exactly when the body arrives whole and fits.
    ensures outcome.Finished? && sender.Open() ==>
              && sender.delivered == Unlimited(body.chunks, contentType)
              && !body.broken && Fits(body.chunks, contentType, max)
    ensures outcome.LimitExceeded? ==> !Fits(body.chunks, contentType, max)
    ensures outcome.ReadFailed? ==> body.broken
  {
    EventChunksBytes(AllEvents(body.chunks));
    if IsEventStream(contentType) {
      outcome := StreamEvents(body, max, sender);
    } else {
      outcome := StreamChunks(body, contentType, max, sender);
    }
  }

  /**
   End to end: a body of at most `max` bytes that arrives whole, to a receiver that stays, sends
   exactly the events of one `feed` of the whole decoded text followed by `flush`, however the
   bytes are cut into chunks and whatever parameters the content type has.
   */
  method StreamWholeBody(body: Body, params: string, max: Usize) returns (outcome: Outcome, sender: Sender)
    requires !body.broken && |Flatten(body.chunks)| <= max
    requires LfBlanksFirst(Text(Flatten(body.chunks)))
    ensures outcome == Finished
    ensures var sent, events := sender.delivered, WholeEvents(Text(Flatten(body.chunks)));
            |sent| == |events| && forall i :: 0 <= i < |sent| ==> sent[i] == StreamChunk(Encode(events[i].data), None)
  {
    var contentType := Some("text/event-stream" + params);
    sender := new Sender(None);
    EventStreamTypes(body.chunks, params);
    ShortBodyFits(body.chunks, contentType, max);
    ChunkingInvisible(body.chunks);
    outcome := StreamBody(body, contentType, max, sender);
  }

  lemma EventStreamFits(chunks: seq<Bytes>, contentType: Option<string>, max: Usize)
    requires IsEventStream(contentType)
    ensures Fits(chunks, contentType, max)
            <==> BufferFits([], chunks, max) && Saturated(Payload(AllEvents(chunks))) <= max
  {
    hide AllEvents, BufferFits;
    EventChunksBytes(AllEvents(chunks));
  }
}
