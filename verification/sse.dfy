/** The incremental Server-Sent Events parser. */
module Sse {
  import opened Wrappers
  import opened Strings

  datatype SseEvent = SseEvent(eventType: Option<string>, data: string, id: Option<string>)

  // ---- one block ------------------------------------------------------------

  function StripCr(line: string): string {
    if EndsWith(line, "\r") then line[..|line| - 1] else line
  }

  /** `str::lines`: a carriage return is dropped only in front of a line feed. */
  function Lines(s: string): seq<string> {
    if s == [] then []
    else
      match Find(s, "\n")
      case None => [s]
      case Some(i) => [StripCr(s[..i])] + Lines(s[i + 1..])
  }

  datatype Field = Data(value: string) | EventType(value: string) | Id(value: string) | Ignored

  function FieldValue(line: string, name: string): string
    requires StartsWith(line, name)
  {
    var rest := line[|name|..];
    if StartsWith(rest, " ") then rest[1..] else rest
  }

  function FieldOf(line: string): Field {
    if StartsWith(line, ":") then Ignored
    else if StartsWith(line, "data:") then Data(FieldValue(line, "data:"))
    else if StartsWith(line, "event:") then EventType(FieldValue(line, "event:"))
    else if StartsWith(line, "id:") then Id(FieldValue(line, "id:"))
    else Ignored
  }

  /** The values of all `data` lines, in order. */
  function DataValues(lines: seq<string>): seq<string> {
    if lines == [] then []
    else
      var n := |lines| - 1;
      DataValues(lines[..n])
      + match FieldOf(lines[n]) case Data(v) => [v] case _ => []
  }

  /** The value of the last `event` line. */
  function LastType(lines: seq<string>): Option<string> {
    if lines == [] then None
    else
      var n := |lines| - 1;
      match FieldOf(lines[n]) case EventType(v) => Some(v) case _ => LastType(lines[..n])
  }

  /** The value of the last `id` line. */
  function LastId(lines: seq<string>): Option<string> {
    if lines == [] then None
    else
      var n := |lines| - 1;
      match FieldOf(lines[n]) case Id(v) => Some(v) case _ => LastId(lines[..n])
  }

  /** The event that a block of lines stands for; a block without `data` stands for none. */
  function BlockEvent(block: string): Option<SseEvent> {
    var lines := Lines(block);
    if DataValues(lines) == [] then None
    else Some(SseEvent(LastType(lines), Join(DataValues(lines), "\n"), LastId(lines)))
  }

  /** The events of a list of blocks, in order. */
  function Events(blocks: seq<string>): seq<SseEvent> {
    if blocks == [] then []
    else OptionToSeq(BlockEvent(blocks[0])) + Events(blocks[1..])
  }

  lemma EventsOfCons(block: string, blocks: seq<string>)
    ensures Events([block] + blocks) == OptionToSeq(BlockEvent(block)) + Events(blocks)
  {
    assert ([block] + blocks)[1..] == blocks;
  }

  lemma {:induction false} EventsAppend(a: seq<string>, b: seq<string>)
    ensures Events(a + b) == Events(a) + Events(b)
  {
    if a == [] {
      assert a + b == b;
    } else {
      assert (a + b)[1..] == a[1..] + b;
      EventsAppend(a[1..], b);
    }
  }

  // ---- cutting a text into blocks ----------------------------------------------

  const LF_BLANK := "\n\n"
  const CRLF_BLANK := "\r\n\r\n"

  /** Position and length of the next blank line; a line-feed pair is looked for first. */
  function Boundary(s: string): (r: Option<(nat, nat)>)
    ensures r.Some? ==> 0 < r.value.1 && r.value.0 + r.value.1 <= |s|
  {
    match Find(s, LF_BLANK)
    case Some(i) => Some((i, 2))
    case None =>
      match Find(s, CRLF_BLANK)
      case Some(i) => Some((i, 4))
      case None => None
  }

  /** All complete blocks of `s`. */
  function Blocks(s: string): seq<string> {
    match Boundary(s)
    case None => []
    case Some((i, n)) => [s[..i]] + Blocks(s[i + n..])
  }

  /** What follows the last complete block of `s`. */
  function Rest(s: string): string {
    match Boundary(s)
    case None => s
    case Some((i, n)) => Rest(s[i + n..])
  }

  /** What a trailing block that no blank line closes stands for. */
  function FlushEvent(rest: string): Option<SseEvent> {
    var block := Trim(rest);
    if block == [] then None else BlockEvent(block)
  }

  function OptionToSeq<T>(o: Option<T>): seq<T> {
    match o case Some(x) => [x] case None => []
  }

  /** Cutting off the first block moves its event from what is to come to what was emitted. */
  lemma CutFirstBlock(s: string, emitted: seq<SseEvent>)
    requires Boundary(s).Some?
    ensures var (i, n) := Boundary(s).value;
            var event := BlockEvent(s[..i]);
            && emitted + Events(Blocks(s))
               == (if event.Some? then emitted + [event.value] else emitted) + Events(Blocks(s[i + n..]))
            && Rest(s) == Rest(s[i + n..])
  {
    var (i, n) := Boundary(s).value;
    var event := OptionToSeq(BlockEvent(s[..i]));
    var later := Blocks(s[i + n..]);
    EventsOfCons(s[..i], later);
    Regroup(emitted, event, Events(later));
    assert emitted + [] == emitted;
  }

  lemma NothingToCut(s: string, emitted: seq<SseEvent>)
    requires Boundary(s).None?
    ensures emitted + Events(Blocks(s)) == emitted && Rest(s) == s
  {
    assert emitted + [] == emitted;
  }

  // ---- the parser ------------------------------------------------------------------

  method ParseBlock(block: string) returns (event: Option<SseEvent>)
    ensures event == BlockEvent(block)
  {
    var lines := Lines(block);
    var dataLines: seq<string> := [];
    var eventType, id := None, None;
    for i := 0 to |lines|
      invariant dataLines == DataValues(lines[..i])
      invariant eventType == LastType(lines[..i]) && id == LastId(lines[..i])
    {
      var line := lines[i];
      assert lines[..i + 1][..i] == lines[..i];
      if StartsWith(line, ":") {
        continue;
      }
      if StartsWith(line, "data:") {
        dataLines := dataLines + [FieldValue(line, "data:")];
      } else if StartsWith(line, "event:") {
        eventType := Some(FieldValue(line, "event:"));
      } else if StartsWith(line, "id:") {
        id := Some(FieldValue(line, "id:"));
      }
    }
    assert lines[..|lines|] == lines;
    if dataLines == [] {
      return None;
    }
    return Some(SseEvent(eventType, Join(dataLines, "\n"), id));
  }

  class SseParser {
    var buffer: string

    constructor ()
      ensures buffer == ""
    {
      buffer := "";
    }

    method Feed(input: string) returns (events: seq<SseEvent>)
      modifies this
      ensures events == Events(Blocks(old(buffer) + input))
      ensures buffer == Rest(old(buffer) + input)
    {
      hide Boundary, Blocks, Rest, Events, BlockEvent;
      buffer := buffer + input;
      ghost var whole, todo := buffer, Events(Blocks(buffer));
      events := [];
      while true
        invariant Rest(buffer) == Rest(whole)
        invariant todo == Events(Blocks(buffer))
        invariant events + todo == Events(Blocks(whole))
        decreases |buffer|
      {
        var boundary := Boundary(buffer);
        if boundary.None? {
          NothingToCut(buffer, events);
          break;
        }
        var (pos, sepLen) := boundary.value;
        CutFirstBlock(buffer, events);
        var event := ParseBlock(buffer[..pos]);
        if event.Some? {
          events := events + [event.value];
        }
        buffer := buffer[pos + sepLen..];
        todo := Events(Blocks(buffer));
      }
    }

    method Flush() returns (event: Option<SseEvent>)
      modifies this
      ensures event == FlushEvent(old(buffer)) && buffer == ""
    {
      var block := Trim(buffer);
      buffer := "";
      if block == [] {
        return None;
      }
      event := ParseBlock(block);
    }
  }

  // ---- cutting the input anywhere changes nothing ------------------------------------

  /** Every line-feed blank line comes before every CRLF blank line. */
  ghost predicate LfBlanksFirst(s: string) {
    forall i, j :: At(s, CRLF_BLANK, i) && At(s, LF_BLANK, j) ==> j < i
  }

  lemma OneSeparatorKind(s: string)
    requires !Occurs(LF_BLANK, s) || !Occurs(CRLF_BLANK, s)
    ensures LfBlanksFirst(s)
  {
  }

  lemma LfBlanksFirstDrop(s: string, n: nat)
    requires n <= |s| && LfBlanksFirst(s)
    ensures LfBlanksFirst(s[n..])
  {
    forall i, j | At(s[n..], CRLF_BLANK, i) && At(s[n..], LF_BLANK, j) ensures j < i {
      AtDrop(s, n, CRLF_BLANK, i);
      AtDrop(s, n, LF_BLANK, j);
    }
  }

  lemma CrlfBlankChars(s: string, i: int)
    requires At(s, CRLF_BLANK, i)
    ensures s[i] == '\r' && s[i + 1] == '\n' && s[i + 2] == '\r' && s[i + 3] == '\n'
  {
    var p := s[i..i + 4];
    assert p[0] == s[i] && p[1] == s[i + 1] && p[2] == s[i + 2] && p[3] == s[i + 3];
  }

  lemma LfBlankChars(s: string, i: int)
    ensures At(s, LF_BLANK, i) <==> 0 <= i && i + 2 <= |s| && s[i] == '\n' && s[i + 1] == '\n'
  {
    if 0 <= i && i + 2 <= |s| { assert s[i..i + 2] == [s[i], s[i + 1]]; }
  }

  /** A boundary found in `a` is found again when more text follows. */
  lemma BoundaryStable(a: string, b: string)
    requires LfBlanksFirst(a + b) && Boundary(a).Some?
    ensures Boundary(a + b) == Boundary(a)
  {
    forall p: string, i | i + |p| <= |a| ensures At(a + b, p, i) <==> At(a, p, i) {
      AtAppend(a, b, p, i);
    }
    FindSpec(a, LF_BLANK);
    FindSpec(a, CRLF_BLANK);
    if Find(a, LF_BLANK).Some? {
      FindIs(a + b, LF_BLANK, Find(a, LF_BLANK).value);
    } else {
      var i := Find(a, CRLF_BLANK).value;
      assert At(a + b, CRLF_BLANK, i);
      forall j ensures !At(a + b, LF_BLANK, j) {
        assert j < i ==> !At(a, LF_BLANK, j);
      }
      FindNone(a + b, LF_BLANK);
      FindIs(a + b, CRLF_BLANK, i);
    }
  }

  /** Feeding `a` and then `b` cuts the same blocks and keeps the same rest as feeding `a + b`. */
  lemma {:induction false} FramingComposes(a: string, b: string)
    requires LfBlanksFirst(a + b)
    ensures Blocks(a + b) == Blocks(a) + Blocks(Rest(a) + b)
    ensures Rest(a + b) == Rest(Rest(a) + b)
    decreases |a|
  {
    if Boundary(a).Some? {
      var (i, n) := Boundary(a).value;
      var tail := a[i + n..];
      assert (a + b)[i + n..] == tail + b;
      LfBlanksFirstDrop(a + b, i + n);
      FramingComposes(tail, b);
      BoundaryStable(a, b);
      assert (a + b)[..i] == a[..i];
      Regroup([a[..i]], Blocks(tail), Blocks(Rest(tail) + b));
    }
  }

  lemma RestHasNoBlock(s: string)
    ensures Blocks(Rest(s)) == [] && Rest(Rest(s)) == Rest(s)
  {
  }

  lemma RestIsSuffix(s: string)
    ensures EndsWith(s, Rest(s))
  {
  }

  /** The blocks cut by feeding the pieces of a text one after the other, from the buffer `rest`. */
  function BlocksFed(rest: string, pieces: seq<string>): seq<string>
    decreases |pieces|
  {
    if pieces == [] then []
    else Blocks(rest + pieces[0]) + BlocksFed(Rest(rest + pieces[0]), pieces[1..])
  }

  /** The buffer that feeding those pieces leaves. */
  function RestFed(rest: string, pieces: seq<string>): string
    decreases |pieces|
  {
    if pieces == [] then rest else RestFed(Rest(rest + pieces[0]), pieces[1..])
  }

  /** However a text is cut into pieces, the same blocks come out and the same rest is kept. */
  lemma {:induction false} AnyCutFramesAlike(rest: string, pieces: seq<string>)
    requires LfBlanksFirst(rest + Flatten(pieces)) && Blocks(rest) == [] && Rest(rest) == rest
    ensures BlocksFed(rest, pieces) == Blocks(rest + Flatten(pieces))
    ensures RestFed(rest, pieces) == Rest(rest + Flatten(pieces))
    decreases |pieces|
  {
    if pieces == [] {
      assert rest + Flatten(pieces) == rest;
    } else {
      var a, b := rest + pieces[0], Flatten(pieces[1..]);
      assert rest + Flatten(pieces) == a + b;
      assert LfBlanksFirst(Rest(a) + b) by {
        RestIsSuffix(a);
        var n := |a| - |Rest(a)|;
        assert Rest(a) + b == (a + b)[n..];
        LfBlanksFirstDrop(a + b, n);
      }
      FramingComposes(a, b);
      RestHasNoBlock(a);
      AnyCutFramesAlike(Rest(a), pieces[1..]);
    }
  }

  /** Feeding `a` and then `b` does not cut the blocks of `a + b`. */
  ghost predicate CutShows(a: string, b: string) {
    Blocks(a) + Blocks(Rest(a) + b) != Blocks(a + b)
  }

  lemma FirstBlock(s: string, i: nat, n: nat)
    requires Boundary(s) == Some((i, n))
    ensures Blocks(s) != [] && Blocks(s)[0] == s[..i]
  {
  }

  /** The text up to a first CRLF blank line, when no line-feed blank line comes before. */
  lemma CrlfBlockFirst(a: string, b: string, c: nat, p: nat)
    requires Find(a + b, LF_BLANK) == Some(p) && Find(a + b, CRLF_BLANK) == Some(c) && c < p
    requires |a| == c + 4
    ensures Boundary(a) == Some((c, 4))
  {
    var s := a + b;
    FindSpec(s, LF_BLANK);
    FindSpec(s, CRLF_BLANK);
    assert c + 3 <= p by { CrlfBlankChars(s, c); LfBlankChars(s, p); }
    forall k ensures !At(a, LF_BLANK, k) {
      if k + 2 <= |a| { AtAppend(a, b, LF_BLANK, k); }
    }
    FindNone(a, LF_BLANK);
    forall k | k <= c ensures At(a, CRLF_BLANK, k) <==> k == c { AtAppend(a, b, CRLF_BLANK, k); }
    FindIs(a, CRLF_BLANK, c);
  }

  /** The cut right behind a first CRLF blank line separates two blocks. */
  lemma CutBehindCrlf(s: string, a: string, b: string, c: nat, p: nat)
    requires Find(s, LF_BLANK) == Some(p) && Find(s, CRLF_BLANK) == Some(c) && c < p
    requires s == a + b && |a| == c + 4
    ensures CutShows(a, b)
  {
    CrlfBlockFirst(a, b, c, p);
    FirstBlock(a, c, 4);
    FirstBlock(s, p, 2);
    FirstDiffers(Blocks(a), Blocks(Rest(a) + b), Blocks(s));
  }

  lemma FirstDiffers(xs: seq<string>, ys: seq<string>, zs: seq<string>)
    requires xs != [] && zs != [] && |xs[0]| != |zs[0]|
    ensures xs + ys != zs
  {
    assert (xs + ys)[0] == xs[0];
  }

  /** `h` is one block and the line-feed pair that closes it. */
  ghost predicate LfBlock(h: string, p: nat) {
    |h| == p + 2 && At(h, LF_BLANK, p) && forall j :: 0 <= j < p ==> !At(h, LF_BLANK, j)
  }

  lemma LfBlockFirst(h: string, t: string, p: nat)
    requires LfBlock(h, p)
    ensures Blocks(h + t) == [h[..p]] + Blocks(t) && Rest(h + t) == Rest(t)
  {
    forall j | j <= p ensures At(h + t, LF_BLANK, j) <==> At(h, LF_BLANK, j) {
      AtAppend(h, t, LF_BLANK, j);
    }
    FindIs(h + t, LF_BLANK, p);
    assert (h + t)[p + 2..] == t && (h + t)[..p] == h[..p];
  }

  lemma CutShowsLater(h: string, p: nat, a: string, b: string)
    requires LfBlock(h, p) && CutShows(a, b)
    ensures CutShows(h + a, b)
  {
    var x, fed, whole := h[..p], Blocks(a) + Blocks(Rest(a) + b), Blocks(a + b);
    Regroup(h, a, b);
    LfBlockFirst(h, a, p);
    LfBlockFirst(h, a + b, p);
    Regroup([x], Blocks(a), Blocks(Rest(a) + b));
    assert ([x] + fed)[1..] == fed && ([x] + whole)[1..] == whole;
  }

  /** When the first blank line is a line-feed pair, the mixed separators come behind it. */
  lemma SkipLfBlock(h: string, t: string, p: nat, i: nat, j: nat)
    requires Find(h + t, LF_BLANK) == Some(p) && |h| == p + 2
    requires forall k :: At(h + t, CRLF_BLANK, k) ==> p <= k
    requires At(h + t, CRLF_BLANK, i) && At(h + t, LF_BLANK, j) && i <= j
    ensures LfBlock(h, p)
    ensures p + 2 <= i && At(t, CRLF_BLANK, i - p - 2) && At(t, LF_BLANK, j - p - 2)
  {
    var s := h + t;
    FindSpec(s, LF_BLANK);
    forall k | k <= p ensures At(h, LF_BLANK, k) <==> At(s, LF_BLANK, k) {
      AtAppend(h, t, LF_BLANK, k);
    }
    assert p + 2 <= i by { LfBlankChars(s, p); CrlfBlankChars(s, i); }
    assert s[p + 2..] == t;
    AtDrop(s, p + 2, CRLF_BLANK, i - p - 2);
    AtDrop(s, p + 2, LF_BLANK, j - p - 2);
  }

  lemma NoneBefore(s: string, p: nat, c: nat)
    requires Find(s, CRLF_BLANK) == Some(c) && p <= c
    ensures forall k :: At(s, CRLF_BLANK, k) ==> p <= k
  {
    FindSpec(s, CRLF_BLANK);
    forall k | At(s, CRLF_BLANK, k) ensures p <= k {
      assert 0 <= k;
    }
  }

  /** A cut right behind a CRLF blank line that a line-feed blank line follows is visible. */
  lemma {:induction false} MixedSeparatorsShow(s: string, i: nat, j: nat) returns (a: string, b: string)
    requires At(s, CRLF_BLANK, i) && At(s, LF_BLANK, j) && i <= j
    ensures s == a + b && CutShows(a, b)
    decreases |s|
  {
    hide Find, CutShows, LfBlock;
    FindSpec(s, LF_BLANK);
    FindSpec(s, CRLF_BLANK);
    var p, c := Find(s, LF_BLANK).value, Find(s, CRLF_BLANK).value;
    if c < p {
      a, b := s[..c + 4], s[c + 4..];
      CutBehindCrlf(s, a, b, c, p);
    } else {
      var h, t := s[..p + 2], s[p + 2..];
      assert s == h + t;
      NoneBefore(s, p, c);
      SkipLfBlock(h, t, p, i, j);
      a, b := MixedSeparatorsShow(t, i - p - 2, j - p - 2);
      CutShowsLater(h, p, a, b);
      Regroup(h, a, b);
      a := h + a;
    }
  }

  lemma TwoPieces(a: string, b: string)
    ensures BlocksFed("", [a, b]) == Blocks(a) + Blocks(Rest(a) + b)
    ensures Flatten([a, b]) == a + b
  {
    assert "" + a == a && [a, b][1..] == [b] && [b][1..] == [];
    assert BlocksFed(Rest(a), [b]) == Blocks(Rest(a) + b) + [];
    assert Flatten([b]) == b + [];
  }

  /** Exactly the texts whose line-feed blank lines come first are cut alike however they arrive. */
  lemma CutsInvisibleIff(s: string)
    ensures LfBlanksFirst(s) <==>
            forall pieces :: Flatten(pieces) == s ==>
              BlocksFed("", pieces) == Blocks(s) && RestFed("", pieces) == Rest(s)
  {
    if LfBlanksFirst(s) {
      forall pieces | Flatten(pieces) == s
        ensures BlocksFed("", pieces) == Blocks(s) && RestFed("", pieces) == Rest(s)
      {
        assert "" + s == s;
        AnyCutFramesAlike("", pieces);
      }
    } else {
      var i, j :| At(s, CRLF_BLANK, i) && At(s, LF_BLANK, j) && i <= j;
      var a, b := MixedSeparatorsShow(s, i, j);
      TwoPieces(a, b);
    }
  }
}
