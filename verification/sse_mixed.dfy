/** Streams that mix separators: what is sent depends on how they are cut. */
module SseMixed {
  import opened Wrappers
  import opened Strings
  import opened Utf8
  import opened Sse
  import opened SseEncoding
  import opened SseCrlf
  import opened Stream

  /** The first event closed by a CRLF blank line, the second by a line-feed pair. */
  function Mixed(a: SseEvent, b: SseEvent): string {
    EncodeCrlf(a) + EncodeEvent(b)
  }

  lemma PlainHasNoPair(lines: seq<string>)
    requires PlainLines(lines) && lines != []
    ensures var block := Join(lines, "\n"); NoLfPair(block) && block != "" && block[|block| - 1] != '\n'
  {
    JoinHasNoBlank(lines);
  }

  lemma PairCloses(x: string)
    requires NoLfPair(x) && x != "" && x[|x| - 1] != '\n'
    ensures LfBlock(x + LF_BLANK, |x|)
  {
    var h := x + LF_BLANK;
    forall j | 0 <= j <= |x| ensures At(h, LF_BLANK, j) <==> j == |x| {
      LfBlankChars(h, j);
      if j < |x| - 1 { assert h[j] == x[j] && h[j + 1] == x[j + 1]; }
    }
  }

  /** Fed at once, both events are one block. */
  lemma MixedIsOneBlock(a: SseEvent, b: SseEvent)
    requires Writable(a) && Writable(b)
    ensures |Blocks(Mixed(a, b))| == 1 && Rest(Mixed(a, b)) == ""
  {
    hide EventLines, Join, Blocks, Rest;
    var first, second := Join(EventLines(a), CRLF), Join(EventLines(b), "\n");
    var x := first + CRLF_BLANK + second;
    EventLinesPlain(a);
    EventLinesPlain(b);
    JoinIsJoined(EventLines(a));
    PlainHasNoPair(EventLines(b));
    BlockThenRest(first, second);
    assert x[|x| - 1] == second[|second| - 1];
    PairCloses(x);
    LfBlockFirst(x + LF_BLANK, "", |x|);
    Regroup(first + CRLF_BLANK, second, LF_BLANK);
    assert Mixed(a, b) == x + LF_BLANK + "";
    NothingLeft();
  }

  lemma NothingLeft()
    ensures Blocks("") == [] && Rest("") == "" && FlushEvent("") == None
  {
    assert Boundary("") == None;
  }

  lemma OneBlockOneEvent(blocks: seq<string>)
    requires |blocks| == 1
    ensures |Events(blocks)| <= 1
  {
    assert blocks[1..] == [];
  }

  lemma OnePiece(text: string)
    ensures AllEvents([Encode(text)]) == Events(Blocks(text)) + OptionToSeq(FlushEvent(Rest(text)))
  {
    hide Blocks, Rest, Text, Pending, FlushEvent, Encode, Events;
    var chunks := [Encode(text)];
    TextOfEncoded(text);
    assert chunks[1..] == [] && [] + Encode(text) == Encode(text);
    assert Pieces([], chunks) == [text];
    OnePieceFed(text);
  }

  lemma {:induction false} OnePieceFed(text: string)
    ensures BlocksFed("", [text]) == Blocks(text) && RestFed("", [text]) == Rest(text)
  {
    hide Blocks, Rest;
    assert [text][1..] == [] && "" + text == text && Blocks(text) + [] == Blocks(text);
  }

  lemma TwoTexts(a: string, b: string)
    requires Rest(a) == "" && Rest(b) == ""
    ensures AllEvents([Encode(a), Encode(b)]) == Events(Blocks(a)) + Events(Blocks(b))
  {
    hide Blocks, Rest, Text, Pending, FlushEvent, Encode;
    var chunks := [Encode(a), Encode(b)];
    TextOfEncoded(a);
    TextOfEncoded(b);
    assert chunks[1..] == [Encode(b)] && [Encode(b)][1..] == [];
    assert [] + Encode(a) == Encode(a) && [] + Encode(b) == Encode(b);
    assert Pieces([], [Encode(b)]) == [b];
    assert Pieces([], chunks) == [a] + [b];
    assert [a] + [b] == [a, b];
    TwoPieces(a, b);
    assert "" + a == a && "" + b == b && [a, b][1..] == [b] && [b][1..] == [];
    EventsAppend(Blocks(a), Blocks(b));
    NothingLeft();
    assert RestFed("", [b]) == Rest(b);
    assert RestFed("", [a, b]) == RestFed(Rest(a), [b]);
    var events := Events(Blocks(a)) + Events(Blocks(b));
    assert events + [] == events;
  }

  lemma OneOf(e: SseEvent)
    requires Writable(e)
    ensures Events(Blocks(EncodeCrlf(e))) == [e] && Rest(EncodeCrlf(e)) == ""
    ensures Events(Blocks(EncodeEvent(e))) == [e] && Rest(EncodeEvent(e)) == ""
  {
    hide Blocks, Rest, Events, EventLines, Join;
    assert [e][1..] == [];
    assert EncodeAllCrlf([e]) == EncodeCrlf(e) + "" == EncodeCrlf(e);
    assert EncodeEvents([e]) == EncodeEvent(e) + "" == EncodeEvent(e);
    CrlfRoundTrip([e]);
    EventsRoundTrip([e]);
  }

  /**
   Any two events, the first closed by a CRLF blank line and the second by a line-feed pair: in two chunks
   both are sent, in one chunk at most one is.
   */
  lemma {:induction false} MixedEventsDependOnCuts(a: SseEvent, b: SseEvent)
    requires Writable(a) && Writable(b)
    ensures var chunks := [Encode(EncodeCrlf(a)), Encode(EncodeEvent(b))];
            && Flatten(chunks) == Encode(Mixed(a, b))
            && AllEvents(chunks) == [a, b]
            && |AllEvents([Encode(Mixed(a, b))])| <= 1
  {
    hide Blocks, Rest, Events, AllEvents, EncodeCrlf, EncodeEvent, Encode;
    var p, q := EncodeCrlf(a), EncodeEvent(b);
    OneOf(a);
    OneOf(b);
    TwoTexts(p, q);
    OnePiece(Mixed(a, b));
    MixedIsOneBlock(a, b);
    OneBlockOneEvent(Blocks(Mixed(a, b)));
    NothingLeft();
    EncodeAppend(p, q);
    FlattenTwo(Encode(p), Encode(q));
  }

  lemma FlattenTwo(a: Bytes, b: Bytes)
    ensures Flatten([a, b]) == a + b
  {
    assert [a, b][1..] == [b] && [b][1..] == [];
    assert Flatten([b]) == b + [];
  }
}
