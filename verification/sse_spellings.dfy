/**
 Every spelling of an event stream: the space behind the colon may be missing, comments and unknown
 fields may stand anywhere, `event` and `id` may be repeated, and lines may end in CRLF.
 */
module SseSpellings {
  import opened Wrappers
  import opened Strings
  import opened Sse
  import opened SseEncoding
  import opened SseCrlf

  /** One line of a block. `space` says whether a space separates the colon from the value. */
  datatype Piece =
    | Datum(value: string, space: bool)
    | Kind(value: string, space: bool)
    | Ident(value: string, space: bool)
    | Comment(text: string)
    | Unknown(text: string)

  function Line(p: Piece): string {
    if p.Datum? then Spelled("data:", p.value, p.space)
    else if p.Kind? then Spelled("event:", p.value, p.space)
    else if p.Ident? then Spelled("id:", p.value, p.space)
    else if p.Comment? then ":" + p.text
    else p.text
  }

  function Spelled(name: string, value: string, space: bool): string {
    if space then name + " " + value else name + value
  }

  /** The space may be missing in front of a value that does not begin with one. */
  predicate Legal(p: Piece) {
    && Line(p) != "" && FreeOfBreaks(Line(p))
    && (p.Datum? || p.Kind? || p.Ident? ==> p.space || !(" " <= p.value))
    && (p.Unknown? ==> !(":" <= p.text) && !("data:" <= p.text) && !("event:" <= p.text)
                       && !("id:" <= p.text))
  }

  predicate LegalBlock(ps: seq<Piece>) {
    ps != [] && forall i :: 0 <= i < |ps| ==> Legal(ps[i])
  }

  // ---- what the lines mean -----------------------------------------------------------------

  function Values(ps: seq<Piece>): seq<string> {
    if ps == [] then []
    else if ps[0].Datum? then [ps[0].value] + Values(ps[1..])
    else Values(ps[1..])
  }

  /** The last `event` value, or `last` when there is none. */
  function KindAfter(last: Option<string>, ps: seq<Piece>): Option<string>
    decreases |ps|
  {
    if ps == [] then last else KindAfter(if ps[0].Kind? then Some(ps[0].value) else last, ps[1..])
  }

  function IdentAfter(last: Option<string>, ps: seq<Piece>): Option<string>
    decreases |ps|
  {
    if ps == [] then last else IdentAfter(if ps[0].Ident? then Some(ps[0].value) else last, ps[1..])
  }

  function Meaning(ps: seq<Piece>): seq<SseEvent> {
    if Values(ps) == [] then []
    else [SseEvent(KindAfter(None, ps), Join(Values(ps), "\n"), IdentAfter(None, ps))]
  }

  function Meanings(blocks: seq<seq<Piece>>): seq<SseEvent> {
    if blocks == [] then [] else Meaning(blocks[0]) + Meanings(blocks[1..])
  }

  // ---- one line --------------------------------------------------------------------------------

  /** The value of a field is all that follows the colon, or the one space behind it. */
  lemma {:induction false} SpelledField(name: string, value: string, space: bool)
    requires name in ["data:", "event:", "id:"]
    requires space || !(" " <= value)
    ensures FieldOf(Spelled(name, value, space))
            == if name == "data:" then Data(value) else if name == "event:" then EventType(value) else Id(value)
  {
    if space {
      FieldOfLine(name, value);
    } else {
      var line := name + value;
      assert line[0] == name[0] && line[..|name|] == name && line[|name|..] == value;
      assert StartsWith(line, name) && !StartsWith(value, " ");
      if name == "event:" { assert line[..5][0] == 'e'; }
      if name == "id:" { assert |line| < 6 || line[..6][0] == 'i'; assert |line| < 5 || line[..5][0] == 'i'; }
    }
  }

  lemma OtherField(p: Piece)
    requires Legal(p) && (p.Comment? || p.Unknown?)
    ensures FieldOf(Line(p)) == Ignored
  {
    var line := Line(p);
    if p.Comment? {
      assert line[..1] == ":";
    } else {
      assert line[..1][0] != ':';
    }
  }

  lemma FieldOfPiece(p: Piece)
    requires Legal(p)
    ensures FieldOf(Line(p))
            == if p.Datum? then Data(p.value) else if p.Kind? then EventType(p.value)
               else if p.Ident? then Id(p.value) else Ignored
  {
    hide FieldOf;
    if p.Comment? || p.Unknown? {
      OtherField(p);
    } else {
      SpelledField(if p.Datum? then "data:" else if p.Kind? then "event:" else "id:", p.value, p.space);
    }
  }

  // ---- one block ---------------------------------------------------------------------------

  lemma {:induction false} PieceFields(before: seq<string>, ps: seq<Piece>)
    requires forall i :: 0 <= i < |ps| ==> Legal(ps[i])
    ensures var lines := before + Map(Line, ps);
            && DataValues(lines) == DataValues(before) + Values(ps)
            && LastType(lines) == KindAfter(LastType(before), ps)
            && LastId(lines) == IdentAfter(LastId(before), ps)
    decreases |ps|
  {
    hide FieldOf, Legal, Line;
    if ps == [] {
      assert before + Map(Line, ps) == before;
    } else {
      var p := ps[0];
      assert before + Map(Line, ps) == before + [Line(p)] + Map(Line, ps[1..]);
      FieldOfPiece(p);
      OneMoreLine(before, Line(p));
      PieceFields(before + [Line(p)], ps[1..]);
      AddValue(DataValues(before), ps);
    }
  }

  lemma AddValue(values: seq<string>, ps: seq<Piece>)
    requires ps != []
    ensures values + Values(ps)
            == values + (if ps[0].Datum? then [ps[0].value] else []) + Values(ps[1..])
  {
    if ps[0].Datum? {
      Regroup(values, [ps[0].value], Values(ps[1..]));
    } else {
      assert values + [] == values;
    }
  }

  lemma PiecesPlain(ps: seq<Piece>)
    requires LegalBlock(ps)
    ensures PlainLines(Map(Line, ps)) && Map(Line, ps) != []
  {
    forall l | l in Map(Line, ps) ensures l != "" && FreeOfBreaks(l) {
      var i :| 0 <= i < |ps| && Map(Line, ps)[i] == l;
      assert ps[i] in ps && Line(ps[i]) == l;
    }
  }

  /** The lines of a block, ended by `eol`. */
  function Written(ps: seq<Piece>, crlf: bool): string {
    Join(Map(Line, ps), if crlf then "\r\n" else "\n")
  }

  lemma {:induction false} BlockMeans(ps: seq<Piece>, crlf: bool)
    requires LegalBlock(ps)
    ensures OptionToSeq(BlockEvent(Written(ps, crlf))) == Meaning(ps)
  {
    hide Lines, Line, Join, Legal, FieldOf, DataValues, LastType, LastId, Values, KindAfter, IdentAfter;
    var lines := Map(Line, ps);
    PiecesPlain(ps);
    if crlf {
      LinesOfCrlf(lines);
    } else {
      LinesOfJoin(lines);
    }
    NoLines();
    PieceFields([], ps);
    assert [] + lines == lines && [] + Values(ps) == Values(ps);
  }

  lemma NoLines()
    ensures DataValues([]) == [] && LastType([]) == None && LastId([]) == None
  {
  }

  // ---- a whole stream ------------------------------------------------------------------------

  function WrittenAll(blocks: seq<seq<Piece>>, crlf: bool): string {
    if blocks == [] then ""
    else Written(blocks[0], crlf) + (if crlf then "\r\n\r\n" else "\n\n") + WrittenAll(blocks[1..], crlf)
  }

  lemma BlockCutOff(ps: seq<Piece>, crlf: bool, t: string)
    requires LegalBlock(ps) && (if crlf then NoLfPair(t) else '\r' !in t)
    ensures var s := Written(ps, crlf) + (if crlf then "\r\n\r\n" else "\n\n") + t;
            && Blocks(s) == [Written(ps, crlf)] + Blocks(t) && Rest(s) == Rest(t)
            && (if crlf then NoLfPair(s) else '\r' !in s)
  {
    hide Line, Join, Blocks, Rest, Legal;
    var lines := Map(Line, ps);
    PiecesPlain(ps);
    if crlf {
      JoinIsJoined(lines);
      CrlfBlock(Written(ps, crlf), t);
      BlockThenRest(Written(ps, crlf), t);
    } else {
      JoinedFreeOf(lines);
      PlainBlock(lines, t);
    }
  }

  /** Every spelling of a stream of blocks is read as what its lines mean, with nothing left over. */
  lemma {:induction false} EverySpellingReads(blocks: seq<seq<Piece>>, crlf: bool)
    requires forall ps :: ps in blocks ==> LegalBlock(ps)
    ensures var s := WrittenAll(blocks, crlf);
            && Events(Blocks(s)) == Meanings(blocks) && Rest(s) == ""
            && (if crlf then NoLfPair(s) else '\r' !in s)
    decreases |blocks|
  {
    hide Line, Written, Legal, Meaning, BlockEvent;
    if blocks == [] {
      assert Boundary("") == None;
    } else {
      var ps, t := blocks[0], WrittenAll(blocks[1..], crlf);
      EverySpellingReads(blocks[1..], crlf);
      BlockCutOff(ps, crlf, t);
      BlockMeans(ps, crlf);
      EventsOfCons(Written(ps, crlf), Blocks(t));
    }
  }

  /** The same holds when the text arrives in arbitrary pieces. */
  lemma {:induction false} EverySpellingReadsInPieces(blocks: seq<seq<Piece>>, crlf: bool, pieces: seq<string>)
    requires forall ps :: ps in blocks ==> LegalBlock(ps)
    requires Flatten(pieces) == WrittenAll(blocks, crlf)
    ensures Events(BlocksFed("", pieces)) == Meanings(blocks) && RestFed("", pieces) == ""
  {
    var s := WrittenAll(blocks, crlf);
    EverySpellingReads(blocks, crlf);
    forall i ensures if crlf then !At(s, LF_BLANK, i) else !At(s, CRLF_BLANK, i) {
      LfBlankChars(s, i);
      if At(s, CRLF_BLANK, i) { CrlfBlankChars(s, i); }
    }
    CutsInvisibleIff(s);
  }

  /** A last block that no blank line closes means the same, whatever white space surrounds it. */
  lemma {:induction false} UnclosedSpelling(before: string, ps: seq<Piece>, crlf: bool, after: string)
    requires LegalBlock(ps) && forall c :: c in before || c in after ==> IsWhitespace(c)
    requires !IsWhitespace(Line(ps[0])[0]) && !IsWhitespace(Line(ps[|ps| - 1])[|Line(ps[|ps| - 1])| - 1])
    ensures OptionToSeq(FlushEvent(before + Written(ps, crlf) + after)) == Meaning(ps)
  {
    hide Line, TrimBy, Legal, BlockEvent;
    var block, lines := Written(ps, crlf), Map(Line, ps);
    PiecesPlain(ps);
    JoinEnds(lines, if crlf then "\r\n" else "\n");
    TrimAround(before, block, after, IsWhitespace);
    BlockMeans(ps, crlf);
  }

  lemma {:induction false} JoinEnds(lines: seq<string>, sep: string)
    requires PlainLines(lines) && lines != []
    ensures var s, n := Join(lines, sep), |lines| - 1;
            s != "" && lines[0] != "" && lines[n] != "" && s[0] == lines[0][0] && s[|s| - 1] == lines[n][|lines[n]| - 1]
    decreases |lines|
  {
    assert lines[0] in lines;
    if |lines| > 1 {
      JoinEnds(lines[1..], sep);
    }
  }
}
