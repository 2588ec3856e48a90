/**
 Writing events as an event stream (section 9.2.6 of the WHATWG HTML Living Standard, the `event`,
 `id` and `data` fields), and the proof that the parser reads back exactly what was written.
 */
module SseEncoding {
  import opened Wrappers
  import opened Strings
  import opened Sse

  function OptionalLine(name: string, value: Option<string>): seq<string> {
    match value case Some(v) => [name + " " + v] case None => []
  }

  function DataLines(parts: seq<string>): seq<string> {
    if parts == [] then [] else ["data: " + parts[0]] + DataLines(parts[1..])
  }

  function EventLines(e: SseEvent): seq<string> {
    OptionalLine("event:", e.eventType) + OptionalLine("id:", e.id) + DataLines(Split(e.data, '\n'))
  }

  /** The lines of the event, closed by a blank line. */
  function EncodeEvent(e: SseEvent): string {
    Join(EventLines(e), "\n") + LF_BLANK
  }

  function EncodeEvents(es: seq<SseEvent>): string {
    if es == [] then "" else EncodeEvent(es[0]) + EncodeEvents(es[1..])
  }

  predicate FreeOfBreaks(s: string) { '\r' !in s && '\n' !in s }

  /** What can be written: one-line type and id, and data without carriage returns. */
  predicate Writable(e: SseEvent) {
    && (e.eventType.Some? ==> FreeOfBreaks(e.eventType.value))
    && (e.id.Some? ==> FreeOfBreaks(e.id.value))
    && '\r' !in e.data
  }

  // ---- lines that contain no breaks survive joining and splitting -----------------

  predicate PlainLines(lines: seq<string>) {
    forall l :: l in lines ==> l != "" && FreeOfBreaks(l)
  }

  lemma NoBreak(l: string)
    requires FreeOfBreaks(l)
    ensures Find(l, "\n") == None
  {
    forall j ensures !At(l, "\n", j) {
      if 0 <= j && j + 1 <= |l| { assert l[j..j + 1][0] == l[j]; }
    }
    FindNone(l, "\n");
  }

  lemma {:induction false} LinesOfJoin(lines: seq<string>)
    requires PlainLines(lines)
    ensures Lines(Join(lines, "\n")) == lines
  {
    if |lines| == 1 {
      NoBreak(lines[0]);
    } else if lines != [] {
      var l, t := lines[0], Join(lines[1..], "\n");
      var s := l + "\n" + t;
      assert l in lines;
      FindFirst(l, '\n', t);
      assert s[..|l|] == l && s[|l| + 1..] == t;
      assert l[|l| - 1] in l;
      assert !EndsWith(l, "\r");
      LinesOfJoin(lines[1..]);
    }
  }

  /** Joined plain lines neither contain a blank line nor end in a break. */
  lemma {:induction false} JoinHasNoBlank(lines: seq<string>)
    requires PlainLines(lines) && lines != []
    ensures var s := Join(lines, "\n");
            && s != "" && s[0] != '\n' && s[|s| - 1] != '\n'
            && forall j :: 0 <= j < |s| - 1 ==> !(s[j] == '\n' && s[j + 1] == '\n')
  {
    var l := lines[0];
    assert l in lines && l[0] in l && l[|l| - 1] in l;
    if |lines| > 1 {
      var t := Join(lines[1..], "\n");
      JoinHasNoBlank(lines[1..]);
      var s := l + "\n" + t;
      assert s == Join(lines, "\n");
      forall j | 0 <= j < |s| - 1 ensures !(s[j] == '\n' && s[j + 1] == '\n') {
        if j < |l| {
          assert s[j] == l[j] && l[j] in l;
        } else if j == |l| {
          assert s[j + 1] == t[0];
        } else {
          assert s[j] == t[j - |l| - 1] && s[j + 1] == t[j - |l|];
        }
      }
    } else {
      forall j | 0 <= j < |l| - 1 ensures !(l[j] == '\n' && l[j + 1] == '\n') { assert l[j] in l; }
    }
  }

  /** Text written as plain lines and a blank line is cut off as one block. */
  lemma PlainBlock(lines: seq<string>, t: string)
    requires PlainLines(lines) && lines != []
    ensures var block := Join(lines, "\n");
            Blocks(block + LF_BLANK + t) == [block] + Blocks(t)
            && Rest(block + LF_BLANK + t) == Rest(t)
  {
    var block := Join(lines, "\n");
    var h := block + LF_BLANK;
    JoinHasNoBlank(lines);
    forall j | 0 <= j <= |block| ensures At(h, LF_BLANK, j) <==> j == |block| {
      LfBlankChars(h, j);
      if j < |block| - 1 { assert h[j] == block[j] && h[j + 1] == block[j + 1]; }
    }
    LfBlockFirst(h, t, |block|);
    assert h[..|block|] == block;
  }

  // ---- the fields of the written lines ---------------------------------------------

  lemma FieldOfLine(name: string, v: string)
    requires name in ["data:", "event:", "id:"]
    ensures FieldOf(name + " " + v)
            == if name == "data:" then Data(v) else if name == "event:" then EventType(v) else Id(v)
  {
    var line := name + " " + v;
    assert line[0] == name[0] && line[..|name|] == name;
    assert line[|name|..] == " " + v;
    assert (" " + v)[..1] == " " && (" " + v)[1..] == v;
    assert StartsWith(line, name);
    if name == "event:" { assert line[..5][0] == 'e'; }
    if name == "id:" { assert |line| < 6 || line[..6][0] == 'i'; assert |line| < 5 || line[..5][0] == 'i'; }
  }

  lemma AddDataLine(before: seq<string>, v: string)
    ensures var next := before + ["data: " + v];
            && DataValues(next) == DataValues(before) + [v]
            && LastType(next) == LastType(before) && LastId(next) == LastId(before)
  {
    hide FieldOf;
    assert "data: " + v == "data:" + " " + v;
    FieldOfLine("data:", v);
    OneMoreLine(before, "data: " + v);
  }

  lemma {:induction false} DataLineValues(before: seq<string>, parts: seq<string>)
    ensures DataValues(before + DataLines(parts)) == DataValues(before) + parts
    ensures LastType(before + DataLines(parts)) == LastType(before)
    ensures LastId(before + DataLines(parts)) == LastId(before)
    decreases |parts|
  {
    if parts == [] {
      assert before + DataLines(parts) == before;
    } else {
      var line := "data: " + parts[0];
      AddDataLine(before, parts[0]);
      Regroup(before, [line], DataLines(parts[1..]));
      DataLineValues(before + [line], parts[1..]);
      Regroup(DataValues(before), [parts[0]], parts[1..]);
      assert parts == [parts[0]] + parts[1..];
    }
  }

  /** One more line: its field is looked at first. */
  lemma OneMoreLine(before: seq<string>, line: string)
    ensures var next := before + [line];
            && DataValues(next) == DataValues(before) + (match FieldOf(line) case Data(v) => [v] case _ => [])
            && LastType(next) == (match FieldOf(line) case EventType(v) => Some(v) case _ => LastType(before))
            && LastId(next) == (match FieldOf(line) case Id(v) => Some(v) case _ => LastId(before))
  {
    assert (before + [line])[..|before|] == before;
  }

  lemma HeaderFields(e: SseEvent)
    ensures var head := OptionalLine("event:", e.eventType) + OptionalLine("id:", e.id);
            DataValues(head) == [] && LastType(head) == e.eventType && LastId(head) == e.id
  {
    hide FieldOf;
    var t := OptionalLine("event:", e.eventType);
    assert t + [] == t && [] + t == t;
    if e.eventType.Some? {
      FieldOfLine("event:", e.eventType.value);
      OneMoreLine([], t[0]);
    }
    if e.id.Some? {
      FieldOfLine("id:", e.id.value);
      OneMoreLine(t, OptionalLine("id:", e.id)[0]);
    }
  }

  lemma {:induction false} DataLinesPlain(parts: seq<string>)
    requires forall p :: p in parts ==> FreeOfBreaks(p)
    ensures PlainLines(DataLines(parts)) && |DataLines(parts)| == |parts|
  {
    if parts == [] {
    } else {
      assert parts[0] in parts;
      DataLinesPlain(parts[1..]);
    }
  }

  lemma EventLinesPlain(e: SseEvent)
    requires Writable(e)
    ensures PlainLines(EventLines(e)) && EventLines(e) != []
  {
    DataLinesPlain(Split(e.data, '\n'));
  }

  /** The written block stands for exactly the event it was written from. */
  lemma EncodedBlock(e: SseEvent)
    requires Writable(e)
    ensures BlockEvent(Join(EventLines(e), "\n")) == Some(e)
  {
    var head := OptionalLine("event:", e.eventType) + OptionalLine("id:", e.id);
    EventLinesPlain(e);
    LinesOfJoin(EventLines(e));
    HeaderFields(e);
    DataLineValues(head, Split(e.data, '\n'));
    assert [] + Split(e.data, '\n') == Split(e.data, '\n');
  }

  /** Reading the concatenation of any written events returns exactly those events, and nothing is left. */
  lemma {:induction false} EventsRoundTrip(es: seq<SseEvent>)
    requires forall e :: e in es ==> Writable(e)
    ensures Events(Blocks(EncodeEvents(es))) == es && Rest(EncodeEvents(es)) == ""
  {
    if es != [] {
      var e, t := es[0], EncodeEvents(es[1..]);
      var block := Join(EventLines(e), "\n");
      EventLinesPlain(e);
      PlainBlock(EventLines(e), t);
      EncodedBlock(e);
      EventsRoundTrip(es[1..]);
      assert ([block] + Blocks(t))[1..] == Blocks(t);
      assert es == [e] + es[1..];
    } else {
      assert Boundary("") == None;
    }
  }

  lemma {:induction false} JoinedFreeOf(lines: seq<string>)
    requires PlainLines(lines)
    ensures '\r' !in Join(lines, "\n")
  {
    if lines == [] {
    } else {
      assert lines[0] in lines;
      JoinedFreeOf(lines[1..]);
    }
  }

  lemma {:induction false} NoCarriageReturns(es: seq<SseEvent>)
    requires forall e :: e in es ==> Writable(e)
    ensures '\r' !in EncodeEvents(es)
  {
    if es == [] {
    } else {
      EventLinesPlain(es[0]);
      JoinedFreeOf(EventLines(es[0]));
      NoCarriageReturns(es[1..]);
    }
  }

  /** The same holds when the written text arrives in arbitrary pieces. */
  lemma EventsRoundTripInPieces(es: seq<SseEvent>, pieces: seq<string>)
    requires forall e :: e in es ==> Writable(e)
    requires Flatten(pieces) == EncodeEvents(es)
    ensures Events(BlocksFed("", pieces)) == es && RestFed("", pieces) == ""
  {
    var s := EncodeEvents(es);
    NoCarriageReturns(es);
    forall i ensures !At(s, CRLF_BLANK, i) {
      if At(s, CRLF_BLANK, i) { CrlfBlankChars(s, i); }
    }
    CutsInvisibleIff(s);
    EventsRoundTrip(es);
  }

  // ---- an event that no blank line closes ----------------------------------------------

  lemma {:induction false} JoinLast(lines: seq<string>, line: string)
    ensures Join(lines + [line], "\n") == if lines == [] then line else Join(lines, "\n") + "\n" + line
    decreases |lines|
  {
    if lines == [] {
      assert lines + [line] == [line];
    } else {
      assert (lines + [line])[1..] == lines[1..] + [line];
      JoinLast(lines[1..], line);
      if |lines| > 1 {
        Regroup(lines[0] + "\n", Join(lines[1..], "\n"), "\n" + line);
        Regroup(Join(lines[1..], "\n"), "\n", line);
        Regroup(Join(lines, "\n"), "\n", line);
      }
    }
  }

  lemma {:induction false} DataLinesLast(parts: seq<string>, part: string)
    ensures DataLines(parts + [part]) == DataLines(parts) + ["data: " + part]
    decreases |parts|
  {
    if parts == [] {
      assert parts + [part] == [part] && [part][1..] == [];
    } else {
      assert (parts + [part])[1..] == parts[1..] + [part];
      DataLinesLast(parts[1..], part);
    }
  }

  lemma {:induction false} TrimEndKeeps(a: string, b: string)
    requires TrimEnd(b, IsWhitespace) != ""
    ensures TrimEnd(a + b, IsWhitespace) == a + TrimEnd(b, IsWhitespace)
    decreases |b|
  {
    if IsWhitespace(b[|b| - 1]) {
      assert (a + b)[..|a + b| - 1] == a + b[..|b| - 1];
      TrimEndKeeps(a, b[..|b| - 1]);
    }
  }

  lemma {:induction false} TrimEndBlank(a: string, b: string)
    requires TrimEnd(b, IsWhitespace) == ""
    ensures TrimEnd(a + b, IsWhitespace) == TrimEnd(a, IsWhitespace)
    decreases |b|
  {
    if b == "" {
      assert a + b == a;
    } else {
      assert (a + b)[..|a + b| - 1] == a + b[..|b| - 1];
      TrimEndBlank(a, b[..|b| - 1]);
    }
  }

  /** Trimming the last data line trims its value. */
  lemma TrimmedDataLine(v: string)
    ensures var line := TrimEnd("data: " + v, IsWhitespace);
            line != "" && FieldOf(line) == Data(TrimEnd(v, IsWhitespace)) && line <= "data: " + v
  {
    hide FieldOf, TrimEnd;
    var t := TrimEnd(v, IsWhitespace);
    assert "data: " == "data:" + " ";
    if t == "" {
      TrimEndBlank("data: ", v);
      EmptyDataLine();
      assert "data:" == ("data: " + v)[..5];
    } else {
      TrimEndKeeps("data: ", v);
      TrimEndIsPrefix(v, IsWhitespace);
      assert "data: " + t == "data:" + " " + t;
      FieldOfLine("data:", t);
    }
  }

  lemma EmptyDataLine()
    ensures TrimEnd("data: ", IsWhitespace) == "data:" && FieldOf("data:") == Data("")
  {
    var line := "data:";
    assert "data: "[..5] == line;
    assert line[..1][0] == 'd' && line[..|line|] == line && line[|line|..] == "";
    assert StartsWith(line, "data:") && FieldValue(line, "data:") == "";
  }

  lemma BlockOfLines(before: seq<string>, line: string, head: SseEvent, parts: seq<string>, v: string)
    requires PlainLines(before + [line])
    requires DataValues(before) == parts && LastType(before) == head.eventType && LastId(before) == head.id
    requires FieldOf(line) == Data(v)
    ensures BlockEvent(Join(before + [line], "\n")) == Some(head.(data := Join(parts + [v], "\n")))
  {
    LinesOfJoin(before + [line]);
    OneMoreLine(before, line);
  }

  /** The event, as flushing its unclosed block gives it: white space at the end of the data line is lost. */
  function Flushed(e: SseEvent): SseEvent {
    var parts := Split(e.data, '\n');
    var n := |parts| - 1;
    e.(data := Join(parts[..n] + [TrimEnd(parts[n], IsWhitespace)], "\n"))
  }

  lemma UnclosedBlockLines(e: SseEvent)
    returns (before: seq<string>, parts: seq<string>, v: string)
    requires Writable(e)
    ensures EventLines(e) == before + ["data: " + v] && Split(e.data, '\n') == parts + [v]
    ensures DataValues(before) == parts && LastType(before) == e.eventType && LastId(before) == e.id
    ensures PlainLines(EventLines(e)) && FreeOfBreaks(v)
  {
    hide FieldOf, Split;
    var all := Split(e.data, '\n');
    var head := OptionalLine("event:", e.eventType) + OptionalLine("id:", e.id);
    parts, v := all[..|all| - 1], all[|all| - 1];
    before := head + DataLines(parts);
    assert all == parts + [v] && v in all;
    DataLinesLast(parts, v);
    Regroup(head, DataLines(parts), ["data: " + v]);
    HeaderFields(e);
    DataLineValues(head, parts);
    assert [] + parts == parts;
    EventLinesPlain(e);
  }

  lemma PlainPrefix(before: seq<string>, line: string, shorter: string)
    requires PlainLines(before + [line]) && shorter <= line && shorter != ""
    ensures PlainLines(before + [shorter])
  {
    assert line in before + [line];
    assert forall c :: c in shorter ==> c in line;
    forall l | l in before + [shorter] ensures l != "" && FreeOfBreaks(l) {
      if l in before { assert l in before + [line]; }
    }
  }

  /** Only white space at the end of the last line is trimmed from the lines of a written event. */
  lemma {:induction false} TrimLines(before: seq<string>, line: string)
    requires PlainLines(before + [line]) && TrimEnd(line, IsWhitespace) != ""
    requires var first := (before + [line])[0]; first != "" && !IsWhitespace(first[0])
    ensures Trim(Join(before + [line], "\n")) == Join(before + [TrimEnd(line, IsWhitespace)], "\n")
  {
    var block := Join(before + [line], "\n");
    JoinLast(before, line);
    JoinLast(before, TrimEnd(line, IsWhitespace));
    assert (before + [line])[0] in before + [line];
    if before != [] {
      assert before[0] in before + [line];
      TrimEndKeeps(Join(before, "\n") + "\n", line);
      assert block[0] == before[0][0];
    }
  }

  lemma FirstLetter(e: SseEvent)
    requires Writable(e)
    ensures EventLines(e) != [] && EventLines(e)[0] != "" && !IsWhitespace(EventLines(e)[0][0])
  {
    var parts := Split(e.data, '\n');
    assert DataLines(parts)[0] == "data: " + parts[0];
  }

  /** What flushing an unclosed block gives. */
  lemma UnclosedEvent(e: SseEvent)
    requires Writable(e)
    ensures FlushEvent(Join(EventLines(e), "\n")) == Some(Flushed(e))
  {
    hide Split, Trim, BlockEvent, FieldOf, Lines, EventLines;
    var before, parts, v := UnclosedBlockLines(e);
    var line := TrimEnd("data: " + v, IsWhitespace);
    FirstLetter(e);
    TrimmedDataLine(v);
    TrimLines(before, "data: " + v);
    PlainPrefix(before, "data: " + v, line);
    BlockOfLines(before, line, e, parts, TrimEnd(v, IsWhitespace));
    JoinHasNoBlank(before + [line]);
    assert (parts + [v])[..|parts|] == parts;
  }

  lemma NothingClosed(es: seq<SseEvent>, e: SseEvent)
    requires Writable(e) && forall x :: x in es ==> Writable(x)
    ensures var tail := Join(EventLines(e), "\n");
            && Events(Blocks(EncodeEvents(es) + tail)) == es
            && Rest(EncodeEvents(es) + tail) == tail
  {
    var s, tail := EncodeEvents(es), Join(EventLines(e), "\n");
    EventLinesPlain(e);
    JoinHasNoBlank(EventLines(e));
    JoinedFreeOf(EventLines(e));
    NoCarriageReturns(es);
    forall i ensures !At(s + tail, CRLF_BLANK, i) && !At(tail, CRLF_BLANK, i) && !At(tail, LF_BLANK, i) {
      if At(s + tail, CRLF_BLANK, i) { CrlfBlankChars(s + tail, i); }
      if At(tail, CRLF_BLANK, i) { CrlfBlankChars(tail, i); }
      LfBlankChars(tail, i);
    }
    FindNone(tail, LF_BLANK);
    FindNone(tail, CRLF_BLANK);
    FramingComposes(s, tail);
    EventsRoundTrip(es);
    assert "" + tail == tail && Blocks(s) + [] == Blocks(s);
  }

  lemma LastPartDecides(parts: seq<string>, v: string, w: string)
    requires |v| != |w|
    ensures Join(parts + [v], "\n") != Join(parts + [w], "\n")
  {
    JoinLast(parts, v);
    JoinLast(parts, w);
  }

  lemma FlushedIff(e: SseEvent)
    ensures var parts := Split(e.data, '\n');
            var v := parts[|parts| - 1];
            Flushed(e) == e <==> v == "" || !IsWhitespace(v[|v| - 1])
  {
    hide Split;
    var parts := Split(e.data, '\n');
    var n := |parts| - 1;
    var v := parts[n];
    assert parts == parts[..n] + [v];
    if v != "" && IsWhitespace(v[|v| - 1]) {
      LastPartDecides(parts[..n], TrimEnd(v, IsWhitespace), v);
    }
  }

  /**
   A stream whose last event is not closed by a blank line still gives all events, the last one exactly
   when its data does not end in white space on its last line.
   */
  lemma {:induction false} TrailingEventIff(es: seq<SseEvent>, e: SseEvent)
    requires Writable(e) && forall x :: x in es ==> Writable(x)
    ensures var s := EncodeEvents(es) + Join(EventLines(e), "\n");
            var parts := Split(e.data, '\n');
            var v := parts[|parts| - 1];
            && Events(Blocks(s)) + OptionToSeq(FlushEvent(Rest(s))) == es + [Flushed(e)]
            && (Flushed(e) == e <==> v == "" || !IsWhitespace(v[|v| - 1]))
  {
    hide EncodeEvents, Blocks, Rest, FlushEvent, EventLines, Split, Flushed, Events, Join;
    NothingClosed(es, e);
    UnclosedEvent(e);
    FlushedIff(e);
  }
}
