/** Exactly which example command lines the web playground reads back. */
module ExampleCliExact {
  import opened Wrappers
  import opened Strings
  import opened Json
  import opened Tokeniser
  import opened CliImport
  import opened ExampleCli
  import opened CliCounts

  // ---- what a command that is read back holds -----------------------------------------------

  /** How often `c` stands in the names and texts of the parameters. */
  function Wanted(c: char, params: seq<ParamSpec>, toString: Json -> string): nat {
    if params == [] then 0
    else Count(c, params[0].name) + Count(c, ExampleText(params[0], toString)) + Wanted(c, params[1..], toString)
  }

  function Names(params: seq<ParamSpec>): seq<string> {
    Map((p: ParamSpec) => p.name, params)
  }

  lemma {:induction false} HeldIsWanted(
      c: char, args: map<string, string>, params: seq<ParamSpec>, toString: Json -> string)
    requires forall i :: 0 <= i < |params| ==>
               params[i].name in args && args[params[i].name] == ExampleText(params[i], toString)
    ensures Held(c, args, Names(params)) == Wanted(c, params, toString)
    decreases |params|
  {
    if params == [] {
    } else {
      HeldIsWanted(c, args, params[1..], toString);
      assert Names(params)[1..] == Names(params[1..]);
    }
  }

  /** A line that is read back has tokens that hold every character as often as key, names and texts do. */
  lemma {:induction false} ReadBackHolds(
      c: char, line: string, key: string, params: seq<ParamSpec>, toString: Json -> string)
    requires ReadBack(Parse(line), key, params, toString) && c !in "true"
    requires forall i, j :: 0 <= i < j < |params| ==> params[i].name != params[j].name
    ensures var tokens := Tokens(TrimBy(line, JsSpace));
            tokens.Ok? && Count(c, key) + Wanted(c, params, toString) <= CountAll(c, tokens.value)
  {
    hide Parsed, Tokens, TrimBy, Held, Wanted, Count, CountAll;
    var tokens := Tokens(TrimBy(line, JsSpace)).value;
    var args := Parsed(tokens).value.args;
    HeldIsWanted(c, args, params, toString);
    ParsedHolds(c, tokens, Names(params));
  }

  // ---- what the printed line holds -----------------------------------------------------------

  lemma {:induction false} CountJoin(c: char, words: seq<string>)
    requires c != ' '
    ensures Count(c, Join(words, " ")) == CountAll(c, words)
    decreases |words|
  {
    if words == [] {
    } else if |words| == 1 {
      assert words[1..] == [];
    } else {
      var rest := Join(words[1..], " ");
      CountJoin(c, words[1..]);
      CountAppend(c, words[0] + " ", rest);
      CountAppend(c, words[0], " ");
      CountZero(c, " ");
    }
  }

  lemma {:induction false} CountEscaped(c: char, s: string)
    requires c != '\'' && c != '\\'
    ensures Count(c, EscapeQuotes(s)) == Count(c, s)
    decreases |s|
  {
    if s == "" {
    } else {
      CountEscaped(c, s[1..]);
      if s[0] == '\'' {
        CountAppend(c, "'\\''", EscapeQuotes(s[1..]));
        CountZero(c, "'\\''");
      } else {
        assert ([s[0]] + EscapeQuotes(s[1..]))[1..] == EscapeQuotes(s[1..]);
      }
    }
  }

  const ZWNBSP := '\U{FEFF}'

  lemma TheCharacter()
    ensures [ZWNBSP] == "\U{FEFF}"
  {
  }

  lemma CountQuoted(s: string)
    ensures Count(ZWNBSP, ShellQuote(s)) == Count(ZWNBSP, s)
  {
    var e := EscapeQuotes(s);
    CountEscaped(ZWNBSP, s);
    CountAppend(ZWNBSP, "'" + e, "'");
    CountAppend(ZWNBSP, "'", e);
    CountZero(ZWNBSP, "'");
    CountZero(ZWNBSP, "\"\"");
  }

  lemma CountPlaceholder(t: ParamType)
    ensures Count(ZWNBSP, Placeholder(t)) == 0
  {
    CountZero(ZWNBSP, Placeholder(t));
  }

  lemma CountValue(param: ParamSpec, toString: Json -> string)
    ensures Count(ZWNBSP, PrintedValue(param, toString)) <= Count(ZWNBSP, ExampleText(param, toString))
  {
    hide Count, ShellQuote, Placeholder;
    var text := ExampleText(param, toString);
    CountQuoted(text);
    CountPlaceholder(param.paramType);
  }

  lemma {:induction false} CountPrinted(params: seq<ParamSpec>, toString: Json -> string)
    ensures CountAll(ZWNBSP, PrintedPairs(params, toString)) <= Wanted(ZWNBSP, params, toString)
    decreases |params|
  {
    hide Count, PrintedValue, ExampleText;
    if params == [] {
    } else {
      var flag, value, more := "--" + params[0].name, PrintedValue(params[0], toString),
                               PrintedPairs(params[1..], toString);
      CountPrinted(params[1..], toString);
      CountValue(params[0], toString);
      CountAppend(ZWNBSP, "--", params[0].name);
      CountZero(ZWNBSP, "--");
      CountTwo(ZWNBSP, flag, value, more);
    }
  }

  lemma CountTwo(c: char, a: string, b: string, rest: seq<string>)
    ensures CountAll(c, [a, b] + rest) == Count(c, a) + Count(c, b) + CountAll(c, rest)
  {
    assert ([a, b] + rest)[1..] == [b] + rest && ([b] + rest)[1..] == rest;
  }

  lemma CountLine(key: string, params: seq<ParamSpec>, toString: Json -> string)
    ensures Count(ZWNBSP, ExampleLine(key, params, toString)) <= Count(ZWNBSP, key) + Wanted(ZWNBSP, params, toString)
  {
    hide Count, PrintedPairs, ExampleLine, Join, Wanted;
    var pairs := PrintedPairs(params, toString);
    LineIsJoined(key, params, toString);
    CountJoin(ZWNBSP, ["earl", "call"] + ([key] + pairs));
    CountTwo(ZWNBSP, "earl", "call", [key] + pairs);
    CountZero(ZWNBSP, "earl");
    CountZero(ZWNBSP, "call");
    assert ([key] + pairs)[1..] == pairs;
    CountPrinted(params, toString);
  }

  // ---- a character that is trimmed away --------------------------------------------------------

  lemma PrefixCounts(c: char, s: string, t: string)
    requires t <= s
    ensures Count(c, t) <= Count(c, s)
  {
    CountDrop(c, s, |t|);
  }

  lemma TrimmedLine(line: string)
    requires line != "" && !JsSpace(line[0])
    ensures TrimBy(line, JsSpace) <= line
    ensures JsSpace(line[|line| - 1]) ==> TrimBy(line, JsSpace) <= line[..|line| - 1]
  {
    TrimEndIsPrefix(line, JsSpace);
    if JsSpace(line[|line| - 1]) {
      TrimEndIsPrefix(line[..|line| - 1], JsSpace);
    }
  }

  lemma StartsPlain(key: string, params: seq<ParamSpec>, toString: Json -> string)
    ensures var line := ExampleLine(key, params, toString); line != "" && line[0] == 'e'
  {
  }

  lemma TrimmedIsLost(key: string, params: seq<ParamSpec>, toString: Json -> string)
    requires forall i, j :: 0 <= i < j < |params| ==> params[i].name != params[j].name
    requires EndsWith(ExampleLine(key, params, toString), [ZWNBSP])
    ensures !ReadBack(Parse(ExampleLine(key, params, toString)), key, params, toString)
  {
    hide Parse, Count, CountAll, ExampleLine, Wanted, Tokens, TrimBy, ReadBack;
    var line := ExampleLine(key, params, toString);
    var trimmed := TrimBy(line, JsSpace);
    StartsPlain(key, params, toString);
    if ReadBack(Parse(line), key, params, toString) {
      var front := line[..|line| - 1];
      LastChar(line);
      TrimmedLine(line);
      ReadBackHolds(ZWNBSP, line, key, params, toString);
      TokensCount(ZWNBSP, trimmed);
      PrefixCounts(ZWNBSP, front, trimmed);
      CountLine(key, params, toString);
    }
  }

  lemma {:induction false} LastChar(line: string)
    requires line != "" && EndsWith(line, [ZWNBSP])
    ensures line[|line| - 1] == ZWNBSP && Count(ZWNBSP, line) == Count(ZWNBSP, line[..|line| - 1]) + 1
  {
    var n := |line| - 1;
    assert line[n..] == [ZWNBSP];
    CountDrop(ZWNBSP, line, n);
    assert [ZWNBSP][1..] == "";
  }

  // ---- backslashes --------------------------------------------------------------------------------

  predicate NoBackslashFirst(rest: string) { rest == "" || rest[0] != '\\' }

  lemma DoubledOne(ch: char, rest: string, escaped: bool)
    ensures Doubled([ch] + rest, escaped)
            == if escaped then (if ch == '\\' then 1 else 0) + Doubled(rest, false) else Doubled(rest, ch == '\\')
  {
    assert ([ch] + rest)[1..] == rest;
  }

  lemma DoubledReset(rest: string)
    requires NoBackslashFirst(rest)
    ensures Doubled(rest, true) == Doubled(rest, false)
  {
  }

  /** Of an escaped text at most half of the backslashes come through, whatever follows. */
  lemma {:induction false} DoubledEscaped(s: string, rest: string, escaped: bool)
    requires NoBackslashFirst(rest)
    ensures 2 * Doubled(EscapeQuotes(s) + rest, escaped)
            <= Count('\\', s) + (if escaped then 1 else 0) + 2 * Doubled(rest, false)
    decreases |s|
  {
    hide Doubled;
    if s == "" {
      assert EscapeQuotes(s) + rest == rest;
      DoubledReset(rest);
    } else {
      var more := EscapeQuotes(s[1..]) + rest;
      if s[0] == '\'' {
        assert EscapeQuotes(s) + rest == ['\''] + (['\\'] + (['\''] + (['\''] + more)));
        DoubledOne('\'', ['\\'] + (['\''] + (['\''] + more)), escaped);
        DoubledOne('\\', ['\''] + (['\''] + more), false);
        DoubledOne('\'', ['\''] + more, true);
        DoubledOne('\'', more, false);
        DoubledEscaped(s[1..], rest, false);
      } else {
        assert EscapeQuotes(s) + rest == [s[0]] + more;
        DoubledOne(s[0], more, escaped);
        DoubledEscaped(s[1..], rest, !escaped && s[0] == '\\');
      }
    }
  }

  lemma {:induction false} EscapeNothing(s: string)
    requires '\'' !in s
    ensures EscapeQuotes(s) == s
    decreases |s|
  {
    if s == "" {
    } else {
      assert s[0] in s;
      EscapeNothing(s[1..]);
      assert s == [s[0]] + s[1..];
    }
  }

  /** Of the printed word at most half of `n` backslashes come through, whatever follows. */
  ghost predicate Thrifty(printed: string, n: nat) {
    forall rest :: NoBackslashFirst(rest) ==> 2 * Doubled(printed + rest, false) <= n + 2 * Doubled(rest, false)
  }

  lemma UnquotedThrifty(s: string)
    requires '\'' !in s
    ensures Thrifty(s, Count('\\', s))
  {
    EscapeNothing(s);
    forall rest | NoBackslashFirst(rest)
      ensures 2 * Doubled(s + rest, false) <= Count('\\', s) + 2 * Doubled(rest, false)
    {
      DoubledEscaped(s, rest, false);
    }
  }

  lemma QuotesThrifty(s: string)
    ensures Thrifty("'" + EscapeQuotes(s) + "'", Count('\\', s))
  {
    hide Doubled;
    var e := EscapeQuotes(s);
    forall rest | NoBackslashFirst(rest)
      ensures 2 * Doubled("'" + e + "'" + rest, false) <= Count('\\', s) + 2 * Doubled(rest, false)
    {
      assert "'" + e + "'" + rest == ['\''] + (e + (['\''] + rest));
      DoubledOne('\'', e + (['\''] + rest), false);
      DoubledEscaped(s, ['\''] + rest, false);
      DoubledOne('\'', rest, false);
    }
  }

  lemma NoBackslashThrifty(s: string)
    requires NoBackslash(s) && '\'' !in s
    ensures Thrifty(s, 0)
  {
    UnquotedThrifty(s);
    CountZero('\\', s);
  }

  lemma QuotedThrifty(s: string)
    ensures Thrifty(ShellQuote(s), Count('\\', s))
  {
    if NeedsQuotes(s) {
      QuotesThrifty(s);
    } else if s == "" {
      NoBackslashThrifty("\"\"");
    } else {
      NoQuoteInside(s);
      UnquotedThrifty(s);
    }
  }

  lemma NoQuoteInside(s: string)
    requires !NeedsQuotes(s)
    ensures '\'' !in s
  {
    forall i | 0 <= i < |s| ensures s[i] != '\'' {}
  }

  lemma PlaceholderThrifty(t: ParamType)
    ensures Thrifty(Placeholder(t), 0)
  {
    match t
    case ArrayType =>
      QuotedConstant("[]", '[', ']');
      assert "'" + "[]" + "'" == "'[]'";
    case ObjectType =>
      QuotedConstant("{}", '{', '}');
      assert "'" + "{}" + "'" == "'{}'";
    case _ => NoBackslashThrifty(Placeholder(t));
  }

  lemma QuotedConstant(s: string, a: char, b: char)
    requires s == [a, b] && a != '\'' && b != '\'' && a != '\\' && b != '\\'
    ensures Thrifty("'" + s + "'", 0)
  {
    Escaped2(a, b);
    QuotesThrifty(s);
    CountZero('\\', s);
  }

  lemma ValueThrifty(param: ParamSpec, toString: Json -> string)
    requires PlainParam(param, toString)
    ensures Thrifty(PrintedValue(param, toString), Count('\\', ExampleText(param, toString)))
  {
    hide Thrifty, Count, ShellQuote;
    var text := ExampleText(param, toString);
    match param.default
    case Some(String(_)) => QuotedThrifty(text);
    case Some(Array(_)) => QuotedThrifty(text);
    case Some(Object(_)) => QuotedThrifty(text);
    case Some(_) =>
      ScalarPlain(param.default.value, toString);
      NoQuoteInside(text);
      UnquotedThrifty(text);
    case None =>
      PlaceholderThrifty(param.paramType);
      ThriftyMore(Placeholder(param.paramType), Count('\\', text));
  }

  lemma ThriftyMore(printed: string, n: nat)
    requires Thrifty(printed, 0)
    ensures Thrifty(printed, n)
  {
    forall rest | NoBackslashFirst(rest)
      ensures 2 * Doubled(printed + rest, false) <= n + 2 * Doubled(rest, false)
    {
      assert 2 * Doubled(printed + rest, false) <= 0 + 2 * Doubled(rest, false);
    }
  }

  ghost predicate AllThrifty(printed: seq<string>, texts: seq<string>) {
    |printed| == |texts| && forall i :: 0 <= i < |printed| ==> Thrifty(printed[i], Count('\\', texts[i]))
  }

  lemma UseThrifty(printed: string, n: nat, rest: string)
    requires Thrifty(printed, n) && NoBackslashFirst(rest)
    ensures 2 * Doubled(printed + rest, false) <= n + 2 * Doubled(rest, false)
  {
  }

  lemma {:induction false} JoinThrifty(printed: seq<string>, texts: seq<string>)
    requires AllThrifty(printed, texts)
    ensures 2 * Doubled(Join(printed, " "), false) <= CountAll('\\', texts)
    decreases |printed|
  {
    hide Doubled, Thrifty, Count;
    if printed == [] {
      NoneDoubled();
    } else {
      var p, n := printed[0], Count('\\', texts[0]);
      if |printed| == 1 {
        NoneDoubled();
        UseThrifty(p, n, "");
        assert p + "" == p;
      } else {
        var rest := Join(printed[1..], " ");
        assert p + " " + rest == p + ([' '] + rest);
        UseThrifty(p, n, [' '] + rest);
        DoubledOne(' ', rest, false);
        JoinThrifty(printed[1..], texts[1..]);
      }
    }
  }

  lemma NoneDoubled()
    ensures Doubled("", false) == 0
  {
  }

  lemma FlagThrifty(name: string)
    requires PlainWord(name)
    ensures Thrifty("--" + name, Count('\\', "--" + name)) && Count('\\', "--" + name) == 0
  {
    NeedsQuotesFlag(name);
    NoQuoteInside("--" + name);
    UnquotedThrifty("--" + name);
    CountZero('\\', "--" + name);
  }

  lemma {:induction false} PairsThrifty(params: seq<ParamSpec>, toString: Json -> string)
    requires forall i :: 0 <= i < |params| ==> PlainParam(params[i], toString)
    ensures AllThrifty(PrintedPairs(params, toString), TextPairs(params, toString))
    ensures CountAll('\\', TextPairs(params, toString)) <= Wanted('\\', params, toString)
    decreases |params|
  {
    hide Thrifty, Count, PrintedValue, ExampleText;
    if params == [] {
    } else {
      FlagThrifty(params[0].name);
      ValueThrifty(params[0], toString);
      PairsThrifty(params[1..], toString);
      CountTwo('\\', "--" + params[0].name, ExampleText(params[0], toString), TextPairs(params[1..], toString));
    }
  }

  lemma WordThrifty(word: string)
    requires PlainWord(word)
    ensures Thrifty(word, Count('\\', word)) && Count('\\', word) == 0
  {
    NoQuoteInside(word);
    UnquotedThrifty(word);
    CountZero('\\', word);
  }

  /** At most half of the backslashes of the texts come through the tokeniser. */
  lemma {:induction false} LineThrifty(key: string, params: seq<ParamSpec>, toString: Json -> string)
    requires PlainWord(key) && forall i :: 0 <= i < |params| ==> PlainParam(params[i], toString)
    ensures 2 * Doubled(ExampleLine(key, params, toString), false) <= Wanted('\\', params, toString)
  {
    hide Thrifty, Count, PrintedPairs, TextPairs, ExampleLine, Join, Wanted, PlainParam, Doubled;
    var printed := ["earl", "call"] + ([key] + PrintedPairs(params, toString));
    var texts := ["earl", "call"] + ([key] + TextPairs(params, toString));
    LineIsJoined(key, params, toString);
    PairsThrifty(params, toString);
    WordThrifty("earl");
    WordThrifty("call");
    WordThrifty(key);
    forall i | 0 <= i < |printed| ensures Thrifty(printed[i], Count('\\', texts[i])) {
      if i >= 3 { assert printed[i] == PrintedPairs(params, toString)[i - 3]; }
    }
    JoinThrifty(printed, texts);
    CountTwo('\\', "earl", "call", [key] + TextPairs(params, toString));
    assert ([key] + TextPairs(params, toString))[1..] == TextPairs(params, toString);
  }

  lemma {:induction false} WantedBackslashes(params: seq<ParamSpec>, toString: Json -> string)
    requires Wanted('\\', params, toString) == 0
    ensures BackslashFree(params, toString)
    decreases |params|
  {
    hide ExampleText;
    if params == [] {
    } else {
      WantedBackslashes(params[1..], toString);
      CountZero('\\', ExampleText(params[0], toString));
      forall i | 0 <= i < |params| ensures NoBackslash(ExampleText(params[i], toString)) {
        if i > 0 { assert NoBackslash(ExampleText(params[1..][i - 1], toString)); }
      }
    }
  }

  lemma {:induction false} BackslashIsLost(key: string, params: seq<ParamSpec>, toString: Json -> string)
    requires PlainWord(key) && forall i :: 0 <= i < |params| ==> PlainParam(params[i], toString)
    requires forall i, j :: 0 <= i < j < |params| ==> params[i].name != params[j].name
    ensures ReadBack(Parse(ExampleLine(key, params, toString)), key, params, toString)
            ==> BackslashFree(params, toString)
  {
    hide Parse, Count, CountAll, ExampleLine, Wanted, Tokens, TrimBy, ReadBack, Doubled, BackslashFree, PlainParam;
    var line := ExampleLine(key, params, toString);
    var trimmed := TrimBy(line, JsSpace);
    StartsPlain(key, params, toString);
    if ReadBack(Parse(line), key, params, toString) {
      TrimmedLine(line);
      ReadBackHolds('\\', line, key, params, toString);
      TokensCount('\\', trimmed);
      assert trimmed + line[|trimmed|..] == line;
      DoubledPrefix(trimmed, line[|trimmed|..], false);
      LineThrifty(key, params, toString);
      WantedBackslashes(params, toString);
    }
  }

  // ---- the condition --------------------------------------------------------------------------------

  /**
   The playground reads an example line back, key and exactly the names with their texts, if and only if no
   text is empty, looks like a flag or has a backslash, and the line does not end in a character that
   JavaScript trims and `shell_quote` does not quote.
   */
  lemma {:induction false} ExampleLineReadsBack(key: string, params: seq<ParamSpec>, toString: Json -> string)
    requires PlainWord(key) && !IsFlag(key)
    requires forall i :: 0 <= i < |params| ==> PlainParam(params[i], toString)
    requires forall i, j :: 0 <= i < j < |params| ==> params[i].name != params[j].name
    ensures ReadBack(Parse(ExampleLine(key, params, toString)), key, params, toString)
            <==> && (forall i :: 0 <= i < |params| ==> Recoverable(ExampleText(params[i], toString)))
                 && BackslashFree(params, toString)
                 && !EndsWith(ExampleLine(key, params, toString), [ZWNBSP])
  {
    hide *;
    TheCharacter();
    if EndsWith(ExampleLine(key, params, toString), [ZWNBSP]) {
      TrimmedIsLost(key, params, toString);
    } else if BackslashFree(params, toString) {
      CleanLineReadsBack(key, params, toString);
    } else {
      BackslashIsLost(key, params, toString);
    }
  }
}
