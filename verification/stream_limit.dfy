/** When the size limit of a streamed body depends on how the body is cut into chunks. */
module StreamLimit {
  import opened Wrappers
  import opened Strings
  import opened Integers
  import opened Utf8
  import opened Sse
  import opened Stream
  import opened Streaming

  const EVENT_STREAM := Some("text/event-stream")

  lemma OneChunk(body: Bytes)
    ensures Flatten([body]) == body
  {
    assert [body][1..] == [] && body + [] == body;
  }

  lemma OneChunkFits(body: Bytes, max: nat)
    ensures BufferFits([], [body], max) <==> |body| <= max
  {
    hide ValidUpTo;
    var one: seq<Bytes>, none: Bytes := [body], [];
    assert one[1..] == [];
    NothingSeen(max);
    assert BufferFits(none + body, one[1..], max);
  }

  ghost predicate EveryCutFits(body: Bytes, max: Usize) {
    forall chunks: seq<Bytes> :: Flatten(chunks) == body ==> Fits(chunks, EVENT_STREAM, max)
  }

  ghost predicate SomeCutFits(body: Bytes, max: Usize) {
    exists chunks: seq<Bytes> :: Flatten(chunks) == body && Fits(chunks, EVENT_STREAM, max)
  }

  /** Every cutting of a body stays within the limit exactly when the body is no longer than the limit. */
  lemma EveryCutFitsIff(body: Bytes, max: Usize)
    ensures EveryCutFits(body, max) <==> |body| <= max
  {
    hide Fits, BufferFits, AllEvents, Pending;
    if |body| <= max {
      forall chunks: seq<Bytes> | Flatten(chunks) == body ensures Fits(chunks, EVENT_STREAM, max) {
        ShortBodyFits(chunks, EVENT_STREAM, max);
      }
    } else {
      OneChunk(body);
      OneChunkFits(body, max);
      EventStreamFits([body], EVENT_STREAM, max);
    }
  }

  // ---- when some cutting fits ---------------------------------------------------------------

  /** No character of the text is encoded in more than `max` bytes. */
  ghost predicate CharsFit(text: string, max: nat) {
    forall c :: c in text ==> |EncodeChar(c)| <= max
  }

  lemma {:induction false} CharFitsText(text: string, c: char)
    requires c in text
    ensures |EncodeChar(c)| <= |Encode(text)|
    decreases |text|
  {
    if c == text[0] {
      assert |Encode(text)| == |EncodeChar(c)| + |Encode(text[1..])|;
    } else {
      CharFitsText(text[1..], c);
    }
  }

  /** While the buffer fits, every character that is completed fits, and so does what is left over. */
  lemma {:induction false} FittingCharsFit(seen: Bytes, chunks: seq<Bytes>, max: nat)
    requires BufferFits(seen, chunks, max) && |Pending(seen)| <= max && CharsFit(Text(seen), max)
    ensures CharsFit(Text(seen + Flatten(chunks)), max) && |Pending(seen + Flatten(chunks))| <= max
    decreases |chunks|
  {
    if chunks == [] {
      assert seen + Flatten(chunks) == seen;
    } else {
      var chunk := chunks[0];
      NextChunkCharsFit(seen, chunk, max);
      FittingCharsFit(seen + chunk, chunks[1..], max);
      Regroup(seen, chunk, Flatten(chunks[1..]));
    }
  }

  lemma NextChunkCharsFit(seen: Bytes, chunk: Bytes, max: nat)
    requires |Pending(seen)| + |chunk| <= max && CharsFit(Text(seen), max)
    ensures CharsFit(Text(seen + chunk), max) && |Pending(seen + chunk)| <= max
  {
    hide ValidUpTo;
    var bytes := Pending(seen) + chunk;
    OneMoreChunk(seen, chunk);
    GoodAndPending(bytes);
    forall c | c in Text(bytes) ensures |EncodeChar(c)| <= max { CharFitsText(Text(bytes), c); }
  }

  /** One chunk for every character, and one for what is no text. */
  function CharChunks(text: string, rest: Bytes): seq<Bytes> {
    if text == [] then [rest] else [EncodeChar(text[0])] + CharChunks(text[1..], rest)
  }

  lemma {:induction false} CharChunksAre(text: string, rest: Bytes)
    ensures Flatten(CharChunks(text, rest)) == Encode(text) + rest
    decreases |text|
  {
    if text == [] {
      OneChunk(rest);
    } else {
      CharChunksAre(text[1..], rest);
      assert CharChunks(text, rest)[1..] == CharChunks(text[1..], rest);
      Regroup(EncodeChar(text[0]), Encode(text[1..]), rest);
    }
  }

  lemma {:induction false} CharChunksFit(before: string, text: string, rest: Bytes, max: nat)
    requires CharsFit(text, max) && |rest| <= max
    ensures BufferFits(Encode(before), CharChunks(text, rest), max)
    decreases |text|
  {
    hide Pending, Text, EncodeChar;
    TextOfEncoded(before);
    if text == [] {
      assert [rest][1..] == [];
    } else {
      var c := text[0];
      assert CharChunks(text, rest)[1..] == CharChunks(text[1..], rest);
      EncodeAppend(before, [c]);
      EncodeCons(c, []);
      assert [c] + [] == [c] && EncodeChar(c) + [] == EncodeChar(c);
      CharChunksFit(before + [c], text[1..], rest, max);
    }
  }

  lemma NothingSeen(max: nat)
    ensures Encode("") == [] && Pending([]) == [] && CharsFit(Text([]), max)
  {
    assert Encode(Text([])) == [];
  }

  /** What no cutting can divide: the characters, what is no text at the end, and the data of all events. */
  ghost predicate PartsFit(body: Bytes, max: Usize) {
    && CharsFit(Text(body), max) && |Pending(body)| <= max
    && Saturated(Payload(WholeEvents(Text(body)))) <= max
  }

  lemma {:induction false} FittingCutHasFittingParts(chunks: seq<Bytes>, max: Usize)
    requires LfBlanksFirst(Text(Flatten(chunks))) && Fits(chunks, EVENT_STREAM, max)
    ensures PartsFit(Flatten(chunks), max)
  {
    hide Fits, BufferFits, AllEvents, Pending, CharsFit, Text, WholeEvents, LfBlanksFirst, Flatten;
    var body := Flatten(chunks);
    EventStreamFits(chunks, EVENT_STREAM, max);
    ChunkingInvisible(chunks);
    NothingSeen(max);
    FittingCharsFit([], chunks, max);
    assert [] + body == body;
  }

  lemma FittingPartsFit(body: Bytes, max: Usize)
    requires LfBlanksFirst(Text(body)) && PartsFit(body, max)
    ensures SomeCutFits(body, max)
  {
    hide Fits, BufferFits, AllEvents, Pending, CharsFit, Text, WholeEvents, LfBlanksFirst, Flatten, CharChunks;
    var chunks := CharChunks(Text(body), Pending(body));
    CharChunksAre(Text(body), Pending(body));
    GoodAndPending(body);
    NothingSeen(max);
    CharChunksFit("", Text(body), Pending(body), max);
    ChunkingInvisible(chunks);
    EventStreamFits(chunks, EVENT_STREAM, max);
  }

  /** Some cutting of a body stays within the limit exactly when its indivisible parts do. */
  lemma SomeCutFitsIff(body: Bytes, max: Usize)
    requires LfBlanksFirst(Text(body))
    ensures SomeCutFits(body, max) <==> PartsFit(body, max)
  {
    hide Fits, LfBlanksFirst, PartsFit;
    if SomeCutFits(body, max) {
      var chunks: seq<Bytes> :| Flatten(chunks) == body && Fits(chunks, EVENT_STREAM, max);
      FittingCutHasFittingParts(chunks, max);
    } else if PartsFit(body, max) {
      FittingPartsFit(body, max);
    }
  }

  /** The cuts alone decide exactly about the bodies that are longer than the limit while their parts are not. */
  lemma CutsDecideIff(body: Bytes, max: Usize)
    requires LfBlanksFirst(Text(body))
    ensures SomeCutFits(body, max) && !EveryCutFits(body, max) <==> |body| > max && PartsFit(body, max)
  {
    hide LfBlanksFirst, PartsFit, SomeCutFits, EveryCutFits;
    EveryCutFitsIff(body, max);
    SomeCutFitsIff(body, max);
  }

  function Colons(n: nat): string {
    seq(n, _ => ':')
  }

  /** Comments send nothing, at any length. */
  lemma ColonsSendNothing(n: nat)
    requires n > 0
    ensures LfBlanksFirst(Colons(n)) && WholeEvents(Colons(n)) == []
  {
    hide BlockEvent, TrimBy;
    var s := Colons(n);
    forall p: string, i | p != "" && p[0] != ':' ensures !At(s, p, i) {
      if 0 <= i && i + |p| <= |s| { assert s[i..i + |p|][0] == ':'; }
    }
    FindNone(s, LF_BLANK);
    FindNone(s, CRLF_BLANK);
    TrimNothing(s, IsWhitespace);
    CommentIsNoEvent(s);
  }

  lemma CommentIsNoEvent(s: string)
    requires s != "" && s[0] == ':' && forall i :: !At(s, "\n", i)
    ensures BlockEvent(s) == None
  {
    FindNone(s, "\n");
    assert Lines(s) == [s];
    assert s[..1] == [s[0]] == ":";
    assert FieldOf(s) == Ignored;
    assert [s][..0] == [];
    assert DataValues([s]) == DataValues([]) + [];
  }

  lemma {:induction false} ColonsAreBytes(n: nat)
    ensures |Encode(Colons(n))| == n && CharsFit(Colons(n), 1)
    decreases n
  {
    if n == 0 {
      assert Colons(n) == "";
    } else {
      assert Colons(n)[1..] == Colons(n - 1);
      ColonsAreBytes(n - 1);
    }
  }

  /** For every limit but zero there are bodies about which the cuts decide. */
  lemma LimitDependsOnCuts(max: Usize)
    ensures (exists body :: LfBlanksFirst(Text(body)) && SomeCutFits(body, max) && !EveryCutFits(body, max))
            <==> max > 0
  {
    hide LfBlanksFirst, WholeEvents, SomeCutFits, EveryCutFits, Text, Pending, Colons;
    if body :| LfBlanksFirst(Text(body)) && SomeCutFits(body, max) && !EveryCutFits(body, max) {
      CutsDecideIff(body, max);
      PartsNeedRoom(body, max);
    }
    if max > 0 {
      var body := Encode(Colons(max + 1));
      ColonsSendNothing(max + 1);
      ColonsAreBytes(max + 1);
      TextOfEncoded(Colons(max + 1));
      CutsDecideIff(body, max);
      assert LfBlanksFirst(Text(body)) && SomeCutFits(body, max) && !EveryCutFits(body, max);
    }
  }

  lemma {:induction false} PartsNeedRoom(body: Bytes, max: Usize)
    requires PartsFit(body, max) && body != []
    ensures max > 0
  {
    GoodAndPending(body);
    if Pending(body) == [] {
      assert Encode(Text(body)) == body;
      assert Text(body)[0] in Text(body);
    }
  }

  /** For bodies that are no event streams the cuts decide nothing. */
  lemma OtherBodiesFitIff(chunks: seq<Bytes>, contentType: Option<string>, max: Usize)
    requires forall params :: contentType != Some("text/event-stream" + params)
    ensures Fits(chunks, contentType, max) <==> |Flatten(chunks)| <= max || max == 0xFFFF_FFFF_FFFF_FFFF
  {
    OtherTypes(chunks, contentType);
    BodyChunksBytes(chunks, contentType);
  }
}
