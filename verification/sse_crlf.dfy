/** Events written with CRLF line ends are read back just the same. */
module SseCrlf {
  import opened Wrappers
  import opened Strings
  import opened Sse
  import opened SseEncoding

  const CRLF := "\r\n"

  function EncodeCrlf(e: SseEvent): string {
    Join(EventLines(e), CRLF) + CRLF_BLANK
  }

  function EncodeAllCrlf(es: seq<SseEvent>): string {
    if es == [] then "" else EncodeCrlf(es[0]) + EncodeAllCrlf(es[1..])
  }

  predicate IsBreak(c: char) { c == '\r' || c == '\n' }

  /** Text of joined lines: no break at either end, and none behind a line feed. */
  ghost predicate Joined(s: string) {
    && s != "" && !IsBreak(s[0]) && !IsBreak(s[|s| - 1])
    && forall j :: 0 <= j < |s| - 1 && s[j] == '\n' ==> !IsBreak(s[j + 1])
  }

  lemma PlainIsJoined(l: string)
    requires l != "" && FreeOfBreaks(l)
    ensures Joined(l)
  {
    forall j | 0 <= j < |l| ensures !IsBreak(l[j]) { assert l[j] in l; }
  }

  lemma JoinedPair(l: string, t: string)
    requires Joined(l) && Joined(t)
    ensures Joined(l + CRLF + t)
  {
    var s := l + CRLF + t;
    forall j | 0 <= j < |s| - 1 && s[j] == '\n' ensures !IsBreak(s[j + 1]) {
      if j < |l| {
        assert s[j] == l[j] && j < |l| - 1 && s[j + 1] == l[j + 1];
      } else if j >= |l| + 2 {
        assert s[j] == t[j - |l| - 2] && s[j + 1] == t[j - |l| - 1];
      } else {
        assert s[|l|] == '\r' && s[|l| + 2] == t[0];
      }
    }
  }

  lemma {:induction false} JoinIsJoined(lines: seq<string>)
    requires PlainLines(lines) && lines != []
    ensures Joined(Join(lines, CRLF))
    decreases |lines|
  {
    assert lines[0] in lines;
    PlainIsJoined(lines[0]);
    if |lines| > 1 {
      JoinIsJoined(lines[1..]);
      JoinedPair(lines[0], Join(lines[1..], CRLF));
    }
  }

  lemma {:induction false} LinesOfCrlf(lines: seq<string>)
    requires PlainLines(lines)
    ensures Lines(Join(lines, CRLF)) == lines
    decreases |lines|
  {
    if |lines| == 1 {
      NoBreak(lines[0]);
    } else if lines != [] {
      var l, t := lines[0], Join(lines[1..], CRLF);
      var cr := l + ['\r'];
      assert l in lines && '\n' !in cr;
      assert Join(lines, CRLF) == cr + ['\n'] + t;
      FindFirst(cr, '\n', t);
      assert (cr + ['\n'] + t)[..|cr|] == cr && (cr + ['\n'] + t)[|cr| + 1..] == t;
      assert cr[|cr| - 1..] == "\r" && cr[..|cr| - 1] == l;
      LinesOfCrlf(lines[1..]);
    }
  }

  /** No two line feeds in a row, and none at the start. */
  ghost predicate NoLfPair(s: string) {
    && (s != "" ==> s[0] != '\n')
    && forall j :: 0 <= j < |s| - 1 ==> !(s[j] == '\n' && s[j + 1] == '\n')
  }

  lemma BlockThenRest(block: string, t: string)
    requires Joined(block) && NoLfPair(t)
    ensures NoLfPair(block + CRLF_BLANK + t)
  {
    var s, n := block + CRLF_BLANK + t, |block|;
    forall j | 0 <= j < |s| - 1 ensures !(s[j] == '\n' && s[j + 1] == '\n') {
      if j < n {
        assert s[j] == block[j] && (j + 1 < n ==> s[j + 1] == block[j + 1]) && s[n] == '\r';
      } else if j >= n + 4 {
        assert s[j] == t[j - n - 4] && s[j + 1] == t[j - n - 3];
      } else {
        assert s[n] == '\r' && s[n + 1] == '\n' && s[n + 2] == '\r' && s[n + 3] == '\n';
        assert j == n + 3 ==> s[j + 1] == t[0];
      }
    }
  }

  /** The first CRLF blank line is the one that closes the block. */
  lemma CrlfBlankCloses(block: string, t: string, j: int)
    requires Joined(block) && 0 <= j <= |block|
    ensures At(block + CRLF_BLANK + t, CRLF_BLANK, j) <==> j == |block|
  {
    var s, n := block + CRLF_BLANK + t, |block|;
    assert s[n..n + 4] == CRLF_BLANK;
    assert forall k :: 0 <= k < n ==> s[k] == block[k];
    if j < n && At(s, CRLF_BLANK, j) { CrlfBlankChars(s, j); }
  }

  lemma CrlfBlock(block: string, t: string)
    requires Joined(block) && NoLfPair(t)
    ensures Blocks(block + CRLF_BLANK + t) == [block] + Blocks(t)
    ensures Rest(block + CRLF_BLANK + t) == Rest(t)
  {
    var s, n := block + CRLF_BLANK + t, |block|;
    BlockThenRest(block, t);
    forall j ensures !At(s, LF_BLANK, j) { LfBlankChars(s, j); }
    FindNone(s, LF_BLANK);
    forall j | 0 <= j <= n ensures At(s, CRLF_BLANK, j) <==> j == n { CrlfBlankCloses(block, t, j); }
    FindIs(s, CRLF_BLANK, n);
    assert s[..n] == block && s[n + 4..] == t;
  }

  lemma CrlfEncodedBlock(e: SseEvent)
    requires Writable(e)
    ensures BlockEvent(Join(EventLines(e), CRLF)) == Some(e)
  {
    hide Lines, Join, EventLines;
    EventLinesPlain(e);
    LinesOfCrlf(EventLines(e));
    LinesOfJoin(EventLines(e));
    EncodedBlock(e);
  }

  /** Events written with CRLF line ends come back exactly, however the text is cut into pieces. */
  lemma {:induction false} CrlfRoundTrip(es: seq<SseEvent>)
    requires forall e :: e in es ==> Writable(e)
    ensures Events(Blocks(EncodeAllCrlf(es))) == es && Rest(EncodeAllCrlf(es)) == ""
    ensures NoLfPair(EncodeAllCrlf(es))
    decreases |es|
  {
    hide EventLines, Join, BlockEvent;
    if es != [] {
      var e, t := es[0], EncodeAllCrlf(es[1..]);
      var block := Join(EventLines(e), CRLF);
      EventLinesPlain(e);
      JoinIsJoined(EventLines(e));
      CrlfRoundTrip(es[1..]);
      CrlfBlock(block, t);
      BlockThenRest(block, t);
      CrlfEncodedBlock(e);
      EventsOfCons(block, Blocks(t));
      assert es == [e] + es[1..];
    } else {
      assert Boundary("") == None;
    }
  }

  lemma CrlfRoundTripInPieces(es: seq<SseEvent>, pieces: seq<string>)
    requires forall e :: e in es ==> Writable(e)
    requires Flatten(pieces) == EncodeAllCrlf(es)
    ensures Events(BlocksFed("", pieces)) == es && RestFed("", pieces) == ""
  {
    var s := EncodeAllCrlf(es);
    CrlfRoundTrip(es);
    forall i ensures !At(s, LF_BLANK, i) { LfBlankChars(s, i); }
    CutsInvisibleIff(s);
  }
}
