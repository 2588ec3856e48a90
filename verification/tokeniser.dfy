/** The tokeniser of the web playground, and the shell quoting it has to undo. */
module Tokeniser {
  import opened Wrappers
  import opened Strings

  // ---- the tokeniser -------------------------------------------------------------------

  datatype TokState = TokState(
    tokens: seq<string>, current: string, inDouble: bool, inSingle: bool, isEscaped: bool)

  /** The state after one more character. */
  function Process(st: TokState, ch: char): TokState {
    if st.isEscaped then st.(current := st.current + [ch], isEscaped := false)
    else if ch == '\\' then st.(isEscaped := true)
    else if ch == '\'' && !st.inDouble then st.(inSingle := !st.inSingle)
    else if ch == '"' && !st.inSingle then st.(inDouble := !st.inDouble)
    else if (ch == ' ' || ch == '\t') && !st.inSingle && !st.inDouble then
      if st.current != "" then st.(tokens := st.tokens + [st.current], current := "") else st
    else st.(current := st.current + [ch])
  }

  function Feed(st: TokState, input: string): TokState
    decreases |input|
  {
    if input == "" then st else Feed(Process(st, input[0]), input[1..])
  }

  datatype TokenError = TrailingBackslash | UnterminatedQuote

  function Finish(st: TokState): Result<seq<string>, TokenError> {
    if st.isEscaped then Err(TrailingBackslash)
    else if st.inSingle || st.inDouble then Err(UnterminatedQuote)
    else Ok(if st.current != "" then st.tokens + [st.current] else st.tokens)
  }

  const START := TokState([], "", false, false, false)

  function Tokens(input: string): Result<seq<string>, TokenError> {
    Finish(Feed(START, input))
  }

  class TokeniserState {
    var tokens: seq<string>
    var current: string
    var inDouble: bool
    var inSingle: bool
    var isEscaped: bool

    constructor ()
      ensures View() == START
    {
      tokens, current, inDouble, inSingle, isEscaped := [], "", false, false, false;
    }

    function View(): TokState
      reads this
    {
      TokState(tokens, current, inDouble, inSingle, isEscaped)
    }

    method ProcessChar(ch: char)
      modifies this
      ensures View() == Process(old(View()), ch)
    {
      if isEscaped {
        current := current + [ch];
        isEscaped := false;
        return;
      }
      if ch == '\\' {
        isEscaped := true;
        return;
      }
      if ch == '\'' && !inDouble {
        inSingle := !inSingle;
        return;
      }
      if ch == '"' && !inSingle {
        inDouble := !inDouble;
        return;
      }
      if (ch == ' ' || ch == '\t') && !inSingle && !inDouble {
        if |current| > 0 {
          tokens := tokens + [current];
          current := "";
        }
        return;
      }
      current := current + [ch];
    }
  }

  method Tokenise(input: string) returns (result: Result<seq<string>, TokenError>)
    ensures result == Tokens(input)
  {
    var state := new TokeniserState();
    for i := 0 to |input|
      invariant fresh(state)
      invariant Feed(state.View(), input[i..]) == Feed(START, input)
    {
      assert input[i..][1..] == input[i + 1..];
      state.ProcessChar(input[i]);
    }
    if state.isEscaped {
      return Err(TrailingBackslash);
    }
    if state.inSingle || state.inDouble {
      return Err(UnterminatedQuote);
    }
    if |state.current| > 0 {
      state.tokens := state.tokens + [state.current];
    }
    return Ok(state.tokens);
  }

  // ---- quoting ---------------------------------------------------------------------------

  predicate NeedsQuotes(s: string) {
    exists i :: 0 <= i < |s| && (IsWhitespace(s[i]) || s[i] == '"' || s[i] == '\'')
  }

  /** `replace('\'', "'\\''")`. */
  function EscapeQuotes(s: string): string {
    if s == "" then "" else (if s[0] == '\'' then "'\\''" else [s[0]]) + EscapeQuotes(s[1..])
  }

  function ShellQuote(s: string): string {
    if NeedsQuotes(s) then "'" + EscapeQuotes(s) + "'"
    else if s == "" then "\"\""
    else s
  }

  /** Quoting changes exactly the empty text and the texts with white space or quotes. */
  lemma QuotedWhenNeeded(s: string)
    ensures ShellQuote(s) == s <==> s != "" && forall c :: c in s ==> !IsWhitespace(c) && c != '"' && c != '\''
  {
    if NeedsQuotes(s) {
      EscapedIsLonger(s);
      assert |ShellQuote(s)| > |s|;
      var i :| 0 <= i < |s| && (IsWhitespace(s[i]) || s[i] == '"' || s[i] == '\'');
      assert s[i] in s;
    }
  }

  lemma {:induction false} EscapedIsLonger(s: string)
    ensures |EscapeQuotes(s)| >= |s|
  {
    if s != "" { EscapedIsLonger(s[1..]); }
  }

  predicate NoBackslash(s: string) { '\\' !in s }

  // ---- feeding pieces ----------------------------------------------------------------------

  lemma {:induction false} FeedAppend(st: TokState, a: string, b: string)
    ensures Feed(st, a + b) == Feed(Feed(st, a), b)
    decreases |a|
  {
    if a == "" {
      assert a + b == b;
    } else {
      assert (a + b)[1..] == a[1..] + b;
      FeedAppend(Process(st, a[0]), a[1..], b);
    }
  }

  lemma FeedOne(st: TokState, ch: char, rest: string)
    ensures Feed(st, [ch] + rest) == Feed(Process(st, ch), rest)
  {
    assert ([ch] + rest)[1..] == rest;
  }

  /** Outside quotes, with the given tokens and the given unfinished token. */
  function Plain(tokens: seq<string>, current: string): TokState {
    TokState(tokens, current, false, false, false)
  }

  /** Inside single quotes. */
  function Single(tokens: seq<string>, current: string): TokState {
    TokState(tokens, current, false, true, false)
  }

  /** Inside single quotes an escaped text without backslashes is read back as it was. */
  lemma {:induction false} FeedEscaped(tokens: seq<string>, current: string, s: string)
    requires NoBackslash(s)
    ensures Feed(Single(tokens, current), EscapeQuotes(s)) == Single(tokens, current + s)
    decreases |s|
  {
    if s == "" {
      assert current + s == current;
    } else {
      var rest := EscapeQuotes(s[1..]);
      var next := current + [s[0]];
      assert s == [s[0]] + s[1..] && s[0] in s;
      assert current + s == next + s[1..];
      if s[0] == '\'' {
        EscapedQuote(tokens, current, rest);
      } else {
        FeedOne(Single(tokens, current), s[0], rest);
      }
      FeedEscaped(tokens, next, s[1..]);
    }
  }

  lemma EscapedQuote(tokens: seq<string>, current: string, rest: string)
    ensures Feed(Single(tokens, current), "'\\''" + rest) == Feed(Single(tokens, current + "'"), rest)
  {
    assert "'\\''" + rest == ['\''] + (['\\'] + (['\''] + (['\''] + rest)));
    FeedOne(Single(tokens, current), '\'', ['\\'] + (['\''] + (['\''] + rest)));
    FeedOne(Plain(tokens, current), '\\', ['\''] + (['\''] + rest));
    FeedOne(Plain(tokens, current).(isEscaped := true), '\'', ['\''] + rest);
    FeedOne(Plain(tokens, current + "'"), '\'', rest);
  }

  /** Outside quotes a text that needs no quotes and has no backslash is read as it is. */
  lemma {:induction false} FeedUnquoted(tokens: seq<string>, current: string, s: string)
    requires NoBackslash(s) && !NeedsQuotes(s)
    ensures Feed(Plain(tokens, current), s) == Plain(tokens, current + s)
    decreases |s|
  {
    if s == "" {
      assert current + s == current;
    } else {
      assert s[0] in s && !IsWhitespace(s[0]);
      assert forall i :: 0 <= i < |s| - 1 ==> s[1..][i] == s[i + 1];
      FeedUnquoted(tokens, current + [s[0]], s[1..]);
      assert current + s == current + [s[0]] + s[1..];
    }
  }

  /** The printed word is read as the text, from the start of any word. */
  ghost predicate Denotes(printed: string, text: string) {
    forall tokens :: Feed(Plain(tokens, ""), printed) == Plain(tokens, text)
  }

  lemma SingleQuotedDenotes(s: string)
    requires NoBackslash(s)
    ensures Denotes("'" + EscapeQuotes(s) + "'", s)
  {
    forall tokens ensures Feed(Plain(tokens, ""), "'" + EscapeQuotes(s) + "'") == Plain(tokens, s) {
      assert "" + s == s;
      assert "'" + EscapeQuotes(s) + "'" == ['\''] + (EscapeQuotes(s) + "'");
      FeedOne(Plain(tokens, ""), '\'', EscapeQuotes(s) + "'");
      FeedAppend(Single(tokens, ""), EscapeQuotes(s), "'");
      FeedEscaped(tokens, "", s);
      FeedOne(Single(tokens, s), '\'', "");
    }
  }

  lemma PlainDenotes(s: string)
    requires NoBackslash(s) && !NeedsQuotes(s)
    ensures Denotes(s, s)
  {
    forall tokens ensures Feed(Plain(tokens, ""), s) == Plain(tokens, s) {
      FeedUnquoted(tokens, "", s);
      assert "" + s == s;
    }
  }

  lemma EmptyDenotes()
    ensures Denotes("\"\"", "")
  {
    forall tokens ensures Feed(Plain(tokens, ""), "\"\"") == Plain(tokens, "") {
      assert "\"\"" == ['"'] + (['"'] + "");
      FeedOne(Plain(tokens, ""), '"', ['"'] + "");
      FeedOne(Plain(tokens, "").(inDouble := true), '"', "");
    }
  }

  /** What `shell_quote` prints for a text without backslashes is read as that text. */
  lemma QuotedDenotes(s: string)
    requires NoBackslash(s)
    ensures Denotes(ShellQuote(s), s)
  {
    if NeedsQuotes(s) {
      SingleQuotedDenotes(s);
    } else if s == "" {
      EmptyDenotes();
    } else {
      PlainDenotes(s);
    }
  }

  // ---- whole command lines ------------------------------------------------------------------

  function NonEmptyOnly(items: seq<string>): seq<string> {
    if items == [] then []
    else (if items[0] == "" then [] else [items[0]]) + NonEmptyOnly(items[1..])
  }

  function PushWord(tokens: seq<string>, text: string): seq<string> {
    if text == "" then tokens else tokens + [text]
  }

  /** Words that denote texts, joined by spaces, are read as the non-empty ones of the texts. */
  lemma {:induction false} FeedJoined(tokens: seq<string>, printed: seq<string>, texts: seq<string>)
    requires |printed| == |texts| && forall i :: 0 <= i < |printed| ==> Denotes(printed[i], texts[i])
    ensures Finish(Feed(Plain(tokens, ""), Join(printed, " "))) == Ok(tokens + NonEmptyOnly(texts))
    decreases |printed|
  {
    hide Feed, Finish, NonEmptyOnly;
    if printed == [] {
      LineEnds(tokens, "");
      assert tokens + [] == tokens;
    } else {
      var p, t := printed[0], texts[0];
      assert Feed(Plain(tokens, ""), p) == Plain(tokens, t);
      PushThenRest(tokens, texts);
      if |printed| == 1 {
        LineEnds(tokens, t);
        assert texts[1..] == [];
        assert PushWord(tokens, t) + [] == PushWord(tokens, t);
      } else {
        var rest := Join(printed[1..], " ");
        assert p + " " + rest == p + ([' '] + rest);
        FeedAppend(Plain(tokens, ""), p, [' '] + rest);
        FeedOne(Plain(tokens, t), ' ', rest);
        FeedJoined(PushWord(tokens, t), printed[1..], texts[1..]);
      }
    }
  }

  lemma LineEnds(tokens: seq<string>, text: string)
    ensures Feed(Plain(tokens, text), "") == Plain(tokens, text)
    ensures Finish(Plain(tokens, text)) == Ok(PushWord(tokens, text))
    ensures NonEmptyOnly([]) == []
  {
  }

  lemma PushThenRest(tokens: seq<string>, texts: seq<string>)
    requires texts != []
    ensures PushWord(tokens, texts[0]) + NonEmptyOnly(texts[1..]) == tokens + NonEmptyOnly(texts)
  {
    var t, rest := texts[0], NonEmptyOnly(texts[1..]);
    assert NonEmptyOnly(texts) == (if t == "" then [] else [t]) + rest;
    hide NonEmptyOnly;
    if t == "" {
      assert [] + rest == rest;
    } else {
      Regroup(tokens, [t], rest);
    }
  }

  function Quoted(items: seq<string>): (printed: seq<string>)
    ensures |printed| == |items| && forall i :: 0 <= i < |items| ==> printed[i] == ShellQuote(items[i])
  {
    seq(|items|, i requires 0 <= i < |items| => ShellQuote(items[i]))
  }

  /** Quoted and joined, texts without backslashes come back, except that empty ones are lost. */
  lemma TokensOfQuoted(items: seq<string>)
    requires forall s :: s in items ==> NoBackslash(s)
    ensures Tokens(Join(Quoted(items), " ")) == Ok(NonEmptyOnly(items))
  {
    forall i | 0 <= i < |items| ensures Denotes(Quoted(items)[i], items[i]) {
      assert items[i] in items;
      QuotedDenotes(items[i]);
    }
    FeedJoined([], Quoted(items), items);
    assert [] + NonEmptyOnly(items) == NonEmptyOnly(items);
  }

  // ---- exactly when quoting is undone --------------------------------------------------------

  /** The result is no list that starts with `tokens` and then `s`. */
  predicate Misread(r: Result<seq<string>, TokenError>, tokens: seq<string>, s: string) {
    r.Ok? ==> |r.value| <= |tokens| || r.value[..|tokens|] != tokens || r.value[|tokens|] != s
  }

  /** The token behind `done` is wrong, or has begun wrongly. */
  predicate Spoiled(st: TokState, done: seq<string>, s: string) {
    || (st.tokens == done && !(st.current <= s))
    || (|done| < |st.tokens| && st.tokens[..|done|] == done && st.tokens[|done|] != s)
  }

  lemma SpoiledStep(st: TokState, done: seq<string>, s: string, ch: char)
    requires Spoiled(st, done, s)
    ensures Spoiled(Process(st, ch), done, s)
  {
    WrongStaysWrong(st.current, ch, s);
  }

  lemma WrongStaysWrong(current: string, ch: char, s: string)
    ensures current + [ch] <= s ==> current <= s
  {
    assert current + [ch] <= s ==> s[..|current|] == (current + [ch])[..|current|];
  }

  lemma {:induction false} SpoiledIsMisread(st: TokState, done: seq<string>, s: string, input: string)
    requires Spoiled(st, done, s)
    ensures Misread(Finish(Feed(st, input)), done, s)
    decreases |input|
  {
    if input == "" {
    } else {
      SpoiledStep(st, done, s, input[0]);
      SpoiledIsMisread(Process(st, input[0]), done, s, input[1..]);
    }
  }

  /** Anything but a backslash, read where a backslash belongs, spoils the token. */
  lemma WrongChar(done: seq<string>, cur: string, w: string, u: string, ch: char, quoted: bool, rest: string)
    requires w != "" && w[0] == '\\' && ch != '\\'
    ensures Misread(Finish(Feed(TokState(done, cur + [ch], false, quoted, false), rest)), done, cur + w + u)
  {
    assert (cur + w + u)[|cur|] == '\\' && (cur + [ch])[|cur|] == ch;
    SpoiledIsMisread(TokState(done, cur + [ch], false, quoted, false), done, cur + w + u, rest);
  }

  predicate Backslashes(w: string) {
    forall i :: 0 <= i < |w| ==> w[i] == '\\'
  }

  /** What is printed of the last part `u` of a text, and behind it. */
  function Remaining(u: string, quoted: bool, rest: string): string {
    (if quoted then EscapeQuotes(u) + "'" else u) + rest
  }

  lemma NeedsQuotesRest(u: string)
    requires u != "" && !NeedsQuotes(u)
    ensures !NeedsQuotes(u[1..])
  {
    forall i | 0 <= i < |u| - 1 ensures u[1..][i] == u[i + 1] {}
  }

  lemma RemainingQuote(u: string, rest: string)
    requires u != "" && u[0] == '\''
    ensures Remaining(u, true, rest)
            == ['\''] + (['\\'] + (['\''] + (['\''] + Remaining(u[1..], true, rest))))
    ensures Remaining(u, true, rest) == "'\\''" + Remaining(u[1..], true, rest)
  {
  }

  /** An ordinary character joins the token. */
  lemma OrdinaryChar(st: TokState, u: string)
    requires u != "" && u[0] != '\\' && !st.isEscaped && !st.inDouble
    requires if st.inSingle then u[0] != '\'' else !NeedsQuotes(u)
    ensures Process(st, u[0]) == st.(current := st.current + [u[0]])
  {
  }

  lemma RemainingChar(u: string, quoted: bool, rest: string)
    requires u != "" && !(quoted && u[0] == '\'')
    ensures Remaining(u, quoted, rest) == [u[0]] + Remaining(u[1..], quoted, rest)
  {
  }

  /** The text has ended while backslashes `w` of it are still missing. */
  lemma LagAtEnd(done: seq<string>, cur: string, w: string, quoted: bool, escaped: bool, rest: string)
    requires w != "" && Backslashes(w) && (escaped || cur != "")
    requires rest == "" || rest[0] == ' '
    ensures Misread(Finish(Feed(TokState(done, cur, false, quoted, escaped), Remaining("", quoted, rest))),
                    done, cur + w)
  {
    var st := TokState(done, cur, false, quoted, escaped);
    assert cur + w + "" == cur + w;
    if quoted {
      assert Remaining("", true, rest) == ['\''] + rest;
      FeedOne(st, '\'', rest);
      if escaped {
        WrongChar(done, cur, w, "", '\'', true, rest);
      } else {
        LagAtEnd(done, cur, w, false, false, rest);
        assert Remaining("", false, rest) == rest;
      }
    } else {
      assert Remaining("", false, rest) == rest;
      if rest != "" {
        assert rest == [' '] + rest[1..];
        FeedOne(st, ' ', rest[1..]);
        if escaped {
          WrongChar(done, cur, w, "", ' ', false, rest[1..]);
        } else {
          SpoiledIsMisread(Plain(done + [cur], ""), done, cur + w, rest[1..]);
        }
      }
    }
  }

  /** The next character of the text is no backslash, while backslashes `w` are still missing. */
  lemma LagMeetsOther(done: seq<string>, cur: string, w: string, u: string, quoted: bool, escaped: bool, rest: string)
    requires w != "" && Backslashes(w) && u != "" && u[0] != '\\'
    requires quoted || !NeedsQuotes(u)
    ensures Misread(Finish(Feed(TokState(done, cur, false, quoted, escaped), Remaining(u, quoted, rest))),
                    done, cur + w + u)
  {
    hide Remaining, EscapeQuotes, Misread, Finish;
    var st := TokState(done, cur, false, quoted, escaped);
    var more := Remaining(u[1..], quoted, rest);
    if quoted && u[0] == '\'' {
      RemainingQuote(u, rest);
      FeedOne(st, '\'', ['\\'] + (['\''] + (['\''] + more)));
      if escaped {
        WrongChar(done, cur, w, u, '\'', true, ['\\'] + (['\''] + (['\''] + more)));
      } else {
        FeedOne(Plain(done, cur), '\\', ['\''] + (['\''] + more));
        FeedOne(Plain(done, cur).(isEscaped := true), '\'', ['\''] + more);
        WrongChar(done, cur, w, u, '\'', false, ['\''] + more);
      }
    } else {
      RemainingChar(u, quoted, rest);
      FeedOne(st, u[0], more);
      WrongChar(done, cur, w, u, u[0], quoted, more);
    }
  }

  lemma MoveBackslash(cur: string, w: string, u: string)
    requires w != "" && w[0] == '\\' && u != "" && u[0] == '\\'
    ensures cur + w + u == (cur + ['\\']) + (w[1..] + ['\\']) + u[1..]
    ensures cur + w + u == cur + (w + ['\\']) + u[1..]
  {
  }

  /** Behind the first backslash the token that is read lags behind the text, and is never completed. */
  lemma {:induction false} LagSpoils(
      done: seq<string>, cur: string, w: string, u: string, quoted: bool, escaped: bool, rest: string)
    requires w != "" && Backslashes(w) && (escaped || cur != "")
    requires quoted || !NeedsQuotes(u)
    requires rest == "" || rest[0] == ' '
    ensures Misread(Finish(Feed(TokState(done, cur, false, quoted, escaped), Remaining(u, quoted, rest))),
                    done, cur + w + u)
    decreases |u|
  {
    hide Remaining, EscapeQuotes, Misread, Finish, NeedsQuotes;
    if u == "" {
      LagAtEnd(done, cur, w, quoted, escaped, rest);
      assert cur + w + u == cur + w;
    } else if u[0] != '\\' {
      LagMeetsOther(done, cur, w, u, quoted, escaped, rest);
    } else {
      var more := Remaining(u[1..], quoted, rest);
      RemainingChar(u, quoted, rest);
      FeedOne(TokState(done, cur, false, quoted, escaped), '\\', more);
      if !quoted { NeedsQuotesRest(u); }
      if escaped {
        MoveBackslash(cur, w, u);
        LagSpoils(done, cur + ['\\'], w[1..] + ['\\'], u[1..], quoted, false, rest);
      } else {
        MoveBackslash(cur, w, u);
        LagSpoils(done, cur, w + ['\\'], u[1..], quoted, true, rest);
      }
    }
  }

  /** Up to its first backslash a text is read as it is. */
  lemma {:induction false} BackslashMisread(
      done: seq<string>, cur: string, u: string, quoted: bool, rest: string)
    requires '\\' in u
    requires quoted || !NeedsQuotes(u)
    requires rest == "" || rest[0] == ' '
    ensures Misread(Finish(Feed(TokState(done, cur, false, quoted, false), Remaining(u, quoted, rest))),
                    done, cur + u)
    decreases |u|
  {
    hide Remaining, EscapeQuotes, Misread, Finish, NeedsQuotes;
    var more := Remaining(u[1..], quoted, rest);
    var st := TokState(done, cur, false, quoted, false);
    if !quoted { NeedsQuotesRest(u); }
    if u[0] == '\\' {
      RemainingChar(u, quoted, rest);
      FeedOne(st, '\\', more);
      LagSpoils(done, cur, ['\\'], u[1..], quoted, true, rest);
      assert cur + u == cur + ['\\'] + u[1..];
    } else {
      assert cur + u == (cur + [u[0]]) + u[1..];
      assert '\\' in u[1..];
      if quoted && u[0] == '\'' {
        RemainingQuote(u, rest);
        EscapedQuote(done, cur, more);
      } else {
        RemainingChar(u, quoted, rest);
        FeedOne(st, u[0], more);
        OrdinaryChar(st, u);
      }
      BackslashMisread(done, cur + [u[0]], u[1..], quoted, rest);
    }
  }

  /** A quoted text with a backslash is never read back. */
  lemma QuotedMisread(done: seq<string>, s: string, rest: string)
    requires !NoBackslash(s)
    requires rest == "" || rest[0] == ' '
    ensures Misread(Finish(Feed(Plain(done, ""), ShellQuote(s) + rest)), done, s)
  {
    assert "" + s == s;
    BackslashMisread(done, "", s, NeedsQuotes(s), rest);
    if NeedsQuotes(s) {
      OpeningQuote(EscapeQuotes(s), rest);
      FeedOne(Plain(done, ""), '\'', Remaining(s, true, rest));
    }
  }

  lemma OpeningQuote(e: string, rest: string)
    ensures "'" + e + "'" + rest == ['\''] + (e + "'" + rest)
  {
  }

  /** What stands behind the first item of a command line. */
  function LineRest(items: seq<string>): string
    requires items != []
  {
    if |items| == 1 then "" else [' '] + Join(Quoted(items[1..]), " ")
  }

  lemma LineSplit(items: seq<string>)
    requires items != []
    ensures Join(Quoted(items), " ") == ShellQuote(items[0]) + LineRest(items)
  {
    var printed := Quoted(items);
    assert printed[1..] == Quoted(items[1..]);
    var p, rest := printed[0], Join(printed[1..], " ");
    assert p + "" == p && p + " " + rest == p + ([' '] + rest);
  }

  /** One item with a backslash is enough to lose the list. */
  lemma {:induction false} JoinedMisread(done: seq<string>, items: seq<string>)
    requires exists i :: 0 <= i < |items| && !NoBackslash(items[i])
    requires forall i :: 0 <= i < |items| ==> items[i] != ""
    ensures Finish(Feed(Plain(done, ""), Join(Quoted(items), " "))) != Ok(done + items)
    decreases |items|
  {
    hide Join, ShellQuote, Finish, Quoted;
    var s := items[0];
    LineSplit(items);
    if !NoBackslash(s) {
      QuotedMisread(done, s, LineRest(items));
      assert (done + items)[..|done|] == done && (done + items)[|done|] == s;
    } else {
      SkipRead(done, s, Join(Quoted(items[1..]), " "));
      JoinedMisread(done + [s], items[1..]);
      assert done + [s] + items[1..] == done + items;
    }
  }

  lemma SkipRead(done: seq<string>, s: string, rest: string)
    requires NoBackslash(s) && s != ""
    ensures Feed(Plain(done, ""), ShellQuote(s) + ([' '] + rest)) == Feed(Plain(done + [s], ""), rest)
  {
    QuotedDenotes(s);
    FeedAppend(Plain(done, ""), ShellQuote(s), [' '] + rest);
    FeedOne(Plain(done, s), ' ', rest);
  }

  predicate TokensNonEmpty(tokens: seq<string>) {
    forall i :: 0 <= i < |tokens| ==> tokens[i] != ""
  }

  /** The tokeniser never yields an empty token. */
  lemma {:induction false} FeedKeepsNonEmpty(st: TokState, input: string)
    requires TokensNonEmpty(st.tokens)
    ensures TokensNonEmpty(Feed(st, input).tokens)
    decreases |input|
  {
    if input == "" {
    } else {
      FeedKeepsNonEmpty(Process(st, input[0]), input[1..]);
    }
  }

  lemma {:induction false} NothingToDrop(items: seq<string>)
    requires TokensNonEmpty(items)
    ensures NonEmptyOnly(items) == items
  {
    if items == [] {
    } else {
      NothingToDrop(items[1..]);
    }
  }

  /** An empty item, or one with a backslash, is not read back. */
  lemma LossyQuoting(items: seq<string>)
    requires exists i :: 0 <= i < |items| && (items[i] == "" || !NoBackslash(items[i]))
    ensures Tokens(Join(Quoted(items), " ")) != Ok(items)
  {
    FeedKeepsNonEmpty(START, Join(Quoted(items), " "));
    if TokensNonEmpty(items) {
      JoinedMisread([], items);
      assert [] + items == items;
    }
  }

  /** Tokenising undoes quoting exactly for lists of non-empty texts without backslashes. */
  lemma TokeniseUndoesQuoting(items: seq<string>)
    ensures Tokens(Join(Quoted(items), " ")) == Ok(items)
            <==> forall s :: s in items ==> s != "" && NoBackslash(s)
  {
    if forall s :: s in items ==> s != "" && NoBackslash(s) {
      TokensOfQuoted(items);
      forall i | 0 <= i < |items| ensures items[i] != "" { assert items[i] in items; }
      NothingToDrop(items);
    } else {
      LossyQuoting(items);
    }
  }
}
