/**
 Command lines as they may be typed: bare, quoted and escaped pieces, any blanks between words, and every
 form of prefix and flag. What is read is what they say; a broken line fails as it should.
 */
module CliLines {
  import opened Wrappers
  import opened Strings
  import opened Tokeniser
  import opened CliImport

  // ---- words -----------------------------------------------------------------------------

  /** One character, as it is or behind a backslash. */
  datatype Bit = Raw(c: char) | Escaped(c: char)

  datatype Quoting = NoQuotes | SingleQuotes | DoubleQuotes

  datatype Part = Part(quoting: Quoting, bits: seq<Bit>)

  type Word = seq<Part>

  /** Which characters may stand as they are. */
  predicate LegalBit(q: Quoting, b: Bit) {
    b.Raw? ==>
      && b.c != '\\'
      && (q == NoQuotes ==> b.c != '\'' && b.c != '"' && b.c != ' ' && b.c != '\t')
      && (q == SingleQuotes ==> b.c != '\'')
      && (q == DoubleQuotes ==> b.c != '"')
  }

  predicate LegalBits(q: Quoting, bits: seq<Bit>) { forall i :: 0 <= i < |bits| ==> LegalBit(q, bits[i]) }

  predicate LegalWord(word: Word) { forall i :: 0 <= i < |word| ==> LegalBits(word[i].quoting, word[i].bits) }

  function TypedBits(bits: seq<Bit>): string {
    if bits == [] then ""
    else (if bits[0].Raw? then [bits[0].c] else ['\\', bits[0].c]) + TypedBits(bits[1..])
  }

  function QuoteMark(q: Quoting): string {
    if q == NoQuotes then "" else if q == SingleQuotes then "'" else "\""
  }

  function TypedWord(word: Word): string {
    if word == [] then ""
    else
      QuoteMark(word[0].quoting) + TypedBits(word[0].bits) + QuoteMark(word[0].quoting) + TypedWord(word[1..])
  }

  function BitsText(bits: seq<Bit>): (text: string)
    ensures |text| == |bits|
  {
    seq(|bits|, i requires 0 <= i < |bits| => bits[i].c)
  }

  /** What the word says. */
  function WordText(word: Word): string {
    if word == [] then "" else BitsText(word[0].bits) + WordText(word[1..])
  }

  // ---- reading a word --------------------------------------------------------------------

  /** The state between two characters of a part. */
  function Within(q: Quoting, tokens: seq<string>, current: string): TokState {
    TokState(tokens, current, q == DoubleQuotes, q == SingleQuotes, false)
  }

  lemma {:induction false} BitsRead(q: Quoting, tokens: seq<string>, current: string, bits: seq<Bit>)
    requires LegalBits(q, bits)
    ensures Feed(Within(q, tokens, current), TypedBits(bits)) == Within(q, tokens, current + BitsText(bits))
    decreases |bits|
  {
    if bits == [] {
      assert current + "" == current;
    } else {
      var b, rest := bits[0], TypedBits(bits[1..]);
      var st := Within(q, tokens, current);
      BitsRead(q, tokens, current + [b.c], bits[1..]);
      assert current + BitsText(bits) == current + [b.c] + BitsText(bits[1..]);
      if b.Raw? {
        FeedOne(st, b.c, rest);
      } else {
        assert ['\\', b.c] + rest == ['\\'] + ([b.c] + rest);
        FeedOne(st, '\\', [b.c] + rest);
        FeedOne(st.(isEscaped := true), b.c, rest);
      }
    }
  }

  lemma MarkRead(q: Quoting, tokens: seq<string>, current: string, rest: string)
    ensures Feed(Within(NoQuotes, tokens, current), QuoteMark(q) + rest) == Feed(Within(q, tokens, current), rest)
    ensures Feed(Within(q, tokens, current), QuoteMark(q) + rest) == Feed(Within(NoQuotes, tokens, current), rest)
  {
    if q == NoQuotes {
      assert "" + rest == rest;
    } else {
      var mark := QuoteMark(q)[0];
      FeedOne(Within(NoQuotes, tokens, current), mark, rest);
      FeedOne(Within(q, tokens, current), mark, rest);
    }
  }

  lemma {:induction false} WordRead(tokens: seq<string>, current: string, word: Word, rest: string)
    requires LegalWord(word)
    ensures Feed(Within(NoQuotes, tokens, current), TypedWord(word) + rest)
            == Feed(Within(NoQuotes, tokens, current + WordText(word)), rest)
    decreases |word|
  {
    hide Feed, Within, TypedBits, QuoteMark, LegalBits;
    if word == [] {
      assert "" + rest == rest && current + "" == current;
    } else {
      var q, bits, more := word[0].quoting, word[0].bits, TypedWord(word[1..]) + rest;
      var text := BitsText(bits);
      assert TypedWord(word) + rest == QuoteMark(q) + (TypedBits(bits) + (QuoteMark(q) + more));
      MarkRead(q, tokens, current, TypedBits(bits) + (QuoteMark(q) + more));
      FeedAppend(Within(q, tokens, current), TypedBits(bits), QuoteMark(q) + more);
      BitsRead(q, tokens, current, bits);
      MarkRead(q, tokens, current + text, more);
      WordRead(tokens, current + text, word[1..], rest);
      Regroup(current, text, WordText(word[1..]));
    }
  }

  // ---- reading a line ----------------------------------------------------------------------

  predicate Blanks(s: string) { forall i :: 0 <= i < |s| ==> s[i] == ' ' || s[i] == '\t' }

  /** Words, each with the blanks in front of it; between two words there are some. */
  datatype Spaced = Spaced(gap: string, word: Word)

  predicate LegalLine(line: seq<Spaced>) {
    forall i :: 0 <= i < |line| ==>
      LegalWord(line[i].word) && Blanks(line[i].gap) && (i > 0 ==> line[i].gap != "")
  }

  function Typed(line: seq<Spaced>): string {
    if line == [] then "" else line[0].gap + TypedWord(line[0].word) + Typed(line[1..])
  }

  /** What the words say; a word that says nothing is no token. */
  function Texts(line: seq<Spaced>): seq<string> {
    if line == [] then []
    else (if WordText(line[0].word) == "" then [] else [WordText(line[0].word)]) + Texts(line[1..])
  }

  /** The first blank ends a word. */
  lemma {:induction false} BlanksRead(tokens: seq<string>, current: string, gap: string, rest: string)
    requires Blanks(gap) && (gap == "" ==> current == "")
    ensures Feed(Within(NoQuotes, tokens, current), gap + rest)
            == Feed(Within(NoQuotes, PushWord(tokens, current), ""), rest)
    decreases |gap|
  {
    if gap == "" {
      assert "" + rest == rest;
    } else {
      assert gap + rest == [gap[0]] + (gap[1..] + rest);
      FeedOne(Within(NoQuotes, tokens, current), gap[0], gap[1..] + rest);
      BlanksRead(PushWord(tokens, current), "", gap[1..], rest);
    }
  }

  /** Up to the end of its last word a line gives the tokens before it, and that word is being read. */
  lemma {:induction false} LineRead(
      tokens: seq<string>, current: string, line: seq<Spaced>, rest: string)
    returns (tokens': seq<string>, current': string)
    requires LegalLine(line) && (current != "" && line != [] ==> line[0].gap != "")
    ensures Feed(Within(NoQuotes, tokens, current), Typed(line) + rest)
            == Feed(Within(NoQuotes, tokens', current'), rest)
    ensures PushWord(tokens', current') == PushWord(tokens, current) + Texts(line)
    decreases |line|
  {
    hide Feed, Within, LegalWord, Blanks, TypedWord, WordText, PushWord;
    if line == [] {
      tokens', current' := tokens, current;
      assert "" + rest == rest && PushWord(tokens, current) + [] == PushWord(tokens, current);
    } else {
      var gap, word, more := line[0].gap, line[0].word, Typed(line[1..]) + rest;
      var before, text := PushWord(tokens, current), WordText(word);
      assert Typed(line) + rest == gap + (TypedWord(word) + more);
      BlanksRead(tokens, current, gap, TypedWord(word) + more);
      WordRead(before, "", word, more);
      assert "" + text == text;
      tokens', current' := LineRead(before, text, line[1..], rest);
      PushText(before, text, Texts(line[1..]));
    }
  }

  lemma PushText(tokens: seq<string>, text: string, rest: seq<string>)
    ensures PushWord(tokens, text) + rest == tokens + ((if text == "" then [] else [text]) + rest)
  {
    if text == "" {
      assert [] + rest == rest;
    } else {
      Regroup(tokens, [text], rest);
    }
  }

  lemma LineFromStart(line: seq<Spaced>, rest: string) returns (tokens: seq<string>, current: string)
    requires LegalLine(line)
    ensures Feed(START, Typed(line) + rest) == Feed(Within(NoQuotes, tokens, current), rest)
    ensures PushWord(tokens, current) == Texts(line)
  {
    tokens, current := LineRead([], "", line, rest);
    assert [] + Texts(line) == Texts(line);
  }

  /** A line is read as what its words say, with blanks behind it or none. */
  lemma {:induction false} LineTokens(line: seq<Spaced>, after: string)
    requires LegalLine(line) && Blanks(after)
    ensures Tokens(Typed(line) + after) == Ok(Texts(line))
  {
    var tokens, current := LineFromStart(line, after);
    if after != "" {
      BlanksRead(tokens, current, after, "");
      assert after + "" == after;
    }
  }

  /** A quote that is not closed fails, whatever stands in it. */
  lemma {:induction false} OpenQuoteFails(line: seq<Spaced>, q: Quoting, bits: seq<Bit>)
    requires LegalLine(line) && q != NoQuotes && LegalBits(q, bits)
    ensures Tokens(Typed(line) + (QuoteMark(q) + TypedBits(bits))) == Err(UnterminatedQuote)
  {
    hide TypedBits, QuoteMark, LegalBits;
    var tokens, current := LineFromStart(line, QuoteMark(q) + TypedBits(bits));
    MarkRead(q, tokens, current, TypedBits(bits));
    BitsRead(q, tokens, current, bits);
  }

  /** A backslash at the end fails, within quotes too. */
  lemma {:induction false} LastBackslashFails(line: seq<Spaced>, q: Quoting, bits: seq<Bit>)
    requires LegalLine(line) && LegalBits(q, bits)
    ensures Tokens(Typed(line) + (QuoteMark(q) + (TypedBits(bits) + "\\"))) == Err(TrailingBackslash)
  {
    hide TypedBits, QuoteMark, LegalBits;
    var tokens, current := LineFromStart(line, QuoteMark(q) + (TypedBits(bits) + "\\"));
    MarkRead(q, tokens, current, TypedBits(bits) + "\\");
    FeedAppend(Within(q, tokens, current), TypedBits(bits), "\\");
    BitsRead(q, tokens, current, bits);
    FeedOne(Within(q, tokens, current + BitsText(bits)), '\\', "");
    assert ['\\'] + "" == "\\";
  }

  // ---- flags ---------------------------------------------------------------------------------

  /** `--key value`, `--key=value`, and `--key` alone. */
  datatype Arg = Separate(key: string, value: string) | Equals(key: string, value: string) | Switch(key: string)

  predicate LegalArg(a: Arg) {
    && '=' !in a.key
    && (a.Equals? || a.key != "")
    && (a.Separate? ==> !("--" <= a.value))
  }

  predicate LegalArgs(args: seq<Arg>) { forall i :: 0 <= i < |args| ==> LegalArg(args[i]) }

  function ArgTokens(args: seq<Arg>): seq<string> {
    if args == [] then []
    else
      (if args[0].Separate? then ["--" + args[0].key, args[0].value]
       else if args[0].Equals? then ["--" + args[0].key + "=" + args[0].value]
       else ["--" + args[0].key])
      + ArgTokens(args[1..])
  }

  /** The last value of each key; a switch is the text `true`, and `__proto__` cannot be set. */
  function ArgsMap(args: seq<Arg>): map<string, string> {
    if args == [] then map[]
    else
      (if args[0].key == "__proto__" then map[]
       else map[args[0].key := if args[0].Switch? then "true" else args[0].value])
      + ArgsMap(args[1..])
  }

  lemma FlagKey(a: Arg)
    requires LegalArg(a) && !a.Equals?
    ensures var token := "--" + a.key;
            IsFlag(token) && token[2..] == a.key && a.key != "" && Find(a.key, "=") == None
  {
    assert ("--" + a.key)[..2] == "--";
    FindChar(a.key, '=');
    assert "=" == ['='];
  }

  lemma FlagWithValue(a: Arg)
    requires LegalArg(a) && a.Equals?
    ensures var token := "--" + a.key + "=" + a.value;
            var key := token[2..];
            && IsFlag(token) && key != "" && Find(key, "=") == Some(|a.key|)
            && key[..|a.key|] == a.key && key[|a.key| + 1..] == a.value
  {
    var token := "--" + a.key + "=" + a.value;
    assert token[..2] == "--" && token[2..] == a.key + ['='] + a.value;
    FindFirst(a.key, '=', a.value);
  }

  lemma NoFlag(token: string)
    ensures IsFlag(token) <==> "--" <= token
  {
  }

  lemma OneArg(a: Arg)
    ensures ArgTokens([a])
            == if a.Separate? then ["--" + a.key, a.value]
               else if a.Equals? then ["--" + a.key + "=" + a.value] else ["--" + a.key]
  {
    assert [a][1..] == [] && ArgTokens([]) == [];
  }

  /** One argument in front is read, and then the rest. */
  lemma {:induction false} FirstArg(a: Arg, rest: seq<string>, known: map<string, string>)
    requires LegalArg(a) && (a.Switch? && rest != [] ==> "--" <= rest[0])
    ensures Flags(ArgTokens([a]) + rest, known)
            == Flags(rest, if a.key == "__proto__" then known
                           else known[a.key := if a.Switch? then "true" else a.value])
  {
    hide Find, ArgTokens;
    OneArg(a);
    var tokens := ArgTokens([a]) + rest;
    if a.Equals? {
      FlagWithValue(a);
      assert tokens[0] == "--" + a.key + "=" + a.value && tokens[1..] == rest;
    } else if a.Switch? {
      FlagKey(a);
      assert tokens[0] == "--" + a.key && tokens[1..] == rest;
    } else {
      FlagKey(a);
      assert tokens[0] == "--" + a.key && tokens[1] == a.value && tokens[2..] == rest;
      NoFlag(a.value);
    }
  }

  lemma ArgTokensCons(args: seq<Arg>)
    requires args != []
    ensures ArgTokens(args) == ArgTokens([args[0]]) + ArgTokens(args[1..])
    ensures ArgTokens([args[0]]) != [] && "--" <= ArgTokens([args[0]])[0]
  {
    OneArg(args[0]);
    FlagBegins(args[0]);
  }

  lemma FlagBegins(a: Arg)
    ensures "--" <= "--" + a.key && "--" <= "--" + a.key + "=" + (if a.Switch? then "" else a.value)
  {
    var tail := a.key + "=" + (if a.Switch? then "" else a.value);
    assert "--" + a.key + "=" + (if a.Switch? then "" else a.value) == "--" + tail;
  }

  /** All arguments are read; what comes behind them goes on from there. */
  lemma {:induction false} ArgsRead(args: seq<Arg>, rest: seq<string>, known: map<string, string>)
    requires LegalArgs(args)
    requires rest != [] && args != [] && args[|args| - 1].Switch? ==> "--" <= rest[0]
    ensures Flags(ArgTokens(args) + rest, known) == Flags(rest, known + ArgsMap(args))
    decreases |args|
  {
    hide ArgTokens, LegalArg, Flags, ArgsMap;
    if args == [] {
      assert ArgsMap(args) == map[] by { NoArgs(); }
      assert ArgTokens(args) == [] by { NoArgs(); }
      assert [] + rest == rest && known + map[] == known;
    } else {
      var a, tail := args[0], ArgTokens(args[1..]) + rest;
      ArgTokensCons(args);
      Regroup(ArgTokens([a]), ArgTokens(args[1..]), rest);
      if |args| > 1 {
        ArgTokensCons(args[1..]);
      } else {
        NoArgs();
        assert args[1..] == [] && tail == rest;
      }
      FirstArg(a, tail, known);
      var next := if a.key == "__proto__" then known else known[a.key := if a.Switch? then "true" else a.value];
      ArgsRead(args[1..], rest, next);
      MapsJoin(args, known);
    }
  }

  lemma NoArgs()
    ensures ArgTokens([]) == [] && ArgsMap([]) == map[]
  {
  }

  lemma MapsJoin(args: seq<Arg>, known: map<string, string>)
    requires args != []
    ensures var a := args[0];
            var next := if a.key == "__proto__" then known else known[a.key := if a.Switch? then "true" else a.value];
            next + ArgsMap(args[1..]) == known + ArgsMap(args)
  {
  }

  /** The key has the value of its last argument. */
  lemma {:induction false} LastArgWins(args: seq<Arg>, key: string)
    ensures key in ArgsMap(args) <==> key != "__proto__" && exists i :: 0 <= i < |args| && args[i].key == key
    ensures forall i :: 0 <= i < |args| && args[i].key == key && key != "__proto__"
                        && (forall j :: i < j < |args| ==> args[j].key != key)
                        ==> ArgsMap(args)[key] == if args[i].Switch? then "true" else args[i].value
    decreases |args|
  {
    if args == [] {
    } else {
      var rest := args[1..];
      LastArgWins(rest, key);
      assert forall j :: 0 < j < |args| ==> args[j] == rest[j - 1];
    }
  }

  // ---- whole command lines -----------------------------------------------------------------------

  /** `earl`, `earl call`, or nothing, in front of a command that these would not swallow. */
  predicate LegalStart(prefix: seq<string>, command: string) {
    && prefix in [[], ["earl"], ["earl", "call"]]
    && !("--" <= command)
    && (prefix == [] ==> command != "earl") && (prefix == ["earl"] ==> command != "call")
  }

  predicate NoFlags(tokens: seq<string>) { forall i :: 0 <= i < |tokens| ==> !("--" <= tokens[i]) }

  lemma {:induction false} PositionalsCount(extras: seq<string>, rest: seq<string>)
    requires NoFlags(extras) && (rest != [] ==> "--" <= rest[0])
    ensures Positionals(extras + rest) == |extras|
    decreases |extras|
  {
    if extras == [] {
      assert extras + rest == rest;
    } else {
      assert (extras + rest)[1..] == extras[1..] + rest;
      NoFlag(extras[0]);
      PositionalsCount(extras[1..], rest);
    }
  }

  lemma PrefixStripped(prefix: seq<string>, command: string, rest: seq<string>)
    requires LegalStart(prefix, command)
    ensures StripPrefix(prefix + [command] + rest) == [command] + rest
  {
    var tokens := prefix + [command] + rest;
    assert tokens[|prefix|..] == [command] + rest;
    assert prefix == [] ==> tokens == [command] + rest;
    assert prefix == ["earl"] ==> tokens[0] == "earl" && tokens[1] == command;
    assert prefix == ["earl", "call"] ==> tokens[0] == "earl" && tokens[1] == "call";
  }

  lemma {:induction false} CommandRead(
      prefix: seq<string>, command: string, extras: seq<string>, flags: seq<string>)
    requires LegalStart(prefix, command) && NoFlags(extras) && (flags != [] ==> "--" <= flags[0])
    ensures Parsed(prefix + [command] + extras + flags)
            == match Flags(flags, map[]) case Err(e) => Err(e) case Ok(args) => Ok(Command(command, args))
  {
    hide Flags, LegalStart, NoFlags, StripPrefix, Positionals;
    var behind := [command] + extras;
    Regroup(prefix + [command], extras, flags);
    Regroup([command], extras, flags);
    PrefixStripped(prefix, command, extras + flags);
    CommandIsNoFlag(prefix, command, extras);
    PositionalsCount(behind, flags);
    assert (behind + flags)[|behind|..] == flags && (behind + flags)[0] == command;
  }

  lemma CommandIsNoFlag(prefix: seq<string>, command: string, extras: seq<string>)
    requires LegalStart(prefix, command) && NoFlags(extras)
    ensures NoFlags([command] + extras)
  {
  }

  /**
   A command behind any of the prefixes, with any dropped words behind it and any arguments in any form,
   is read as that command with the last value of each argument.
   */
  lemma {:induction false} CommandWithArgs(
      prefix: seq<string>, command: string, extras: seq<string>, args: seq<Arg>)
    requires LegalStart(prefix, command) && NoFlags(extras) && LegalArgs(args)
    ensures Parsed(prefix + [command] + extras + ArgTokens(args)) == Ok(Command(command, ArgsMap(args)))
  {
    hide ArgTokens, LegalArgs, LegalStart;
    if args == [] { NoArgs(); } else { ArgTokensCons(args); }
    CommandRead(prefix, command, extras, ArgTokens(args));
    ArgsRead(args, [], map[]);
    assert ArgTokens(args) + [] == ArgTokens(args) && map[] + ArgsMap(args) == ArgsMap(args);
  }

  /** A word that is no flag's value, behind the first flag, is an error; so is a flag without a name. */
  lemma {:induction false} StrayTokens(
      prefix: seq<string>, command: string, extras: seq<string>, args: seq<Arg>, stray: string, more: seq<string>)
    requires LegalStart(prefix, command) && NoFlags(extras) && LegalArgs(args)
    ensures args != [] && !args[|args| - 1].Switch? && !("--" <= stray) ==>
              Parsed(prefix + [command] + extras + (ArgTokens(args) + ([stray] + more)))
              == Err(UnexpectedArgument(stray))
    ensures Parsed(prefix + [command] + extras + (ArgTokens(args) + (["--"] + more))) == Err(EmptyFlagName)
  {
    hide ArgTokens, LegalArgs, LegalStart;
    if args == [] { NoArgs(); } else { ArgTokensCons(args); }
    NoFlag(stray);
    if args != [] && !args[|args| - 1].Switch? && !("--" <= stray) {
      CommandRead(prefix, command, extras, ArgTokens(args) + ([stray] + more));
      ArgsRead(args, [stray] + more, map[]);
    }
    CommandRead(prefix, command, extras, ArgTokens(args) + (["--"] + more));
    ArgsRead(args, ["--"] + more, map[]);
    assert (["--"] + more)[0] == "--" && "--"[2..] == "";
  }

  /** Without a command in front of the flags there is nothing to call. */
  lemma {:induction false} NoCommandFails(prefix: seq<string>, flags: seq<string>)
    requires prefix in [[], ["earl"], ["earl", "call"]]
    requires flags != [] ==> "--" <= flags[0]
    ensures Parsed(prefix + flags) == Err(NoCommand)
  {
    var tokens := prefix + flags;
    if flags != [] { NoFlag(flags[0]); DashesDiffer(flags[0]); }
    assert tokens[|prefix|..] == flags;
    assert prefix == [] ==> tokens == flags;
  }

  lemma DashesDiffer(token: string)
    requires "--" <= token
    ensures token != "earl" && token != "call"
  {
    assert token[0] == '-';
  }

  /** White space around a line is dropped, where the line itself neither begins nor ends with any. */
  lemma {:induction false} SurroundedLine(before: string, input: string, after: string)
    requires forall c :: c in before || c in after ==> JsSpace(c)
    requires input != "" && !JsSpace(input[0]) && !JsSpace(input[|input| - 1])
    ensures Parse(before + input + after)
            == match Tokens(input) case Err(e) => Err(Unreadable(e)) case Ok(tokens) => Parsed(tokens)
  {
    hide Tokens, Parsed, JsSpace;
    TrimAround(before, input, after, JsSpace);
  }

  lemma {:induction false} BlankLineFails(input: string)
    requires forall c :: c in input ==> JsSpace(c)
    ensures Parse(input) == Err(EmptyInput)
  {
    hide Tokens, Parsed, JsSpace;
    AllTrimmed(input);
  }

  lemma {:induction false} AllTrimmed(s: string)
    requires forall c :: c in s ==> JsSpace(c)
    ensures TrimStart(s, JsSpace) == ""
  {
    hide JsSpace;
    if s == "" {
    } else {
      assert s[0] in s;
      AllTrimmed(s[1..]);
    }
  }

  /** From typed words to the command: any spelling of any command line. */
  lemma {:induction false} TypedCommandRead(
      before: string, line: seq<Spaced>, after: string,
      prefix: seq<string>, command: string, extras: seq<string>, args: seq<Arg>)
    requires forall c :: c in before || c in after ==> JsSpace(c)
    requires LegalLine(line) && Typed(line) != ""
    requires !JsSpace(Typed(line)[0]) && !JsSpace(Typed(line)[|Typed(line)| - 1])
    requires LegalStart(prefix, command) && NoFlags(extras) && LegalArgs(args)
    requires Texts(line) == prefix + [command] + extras + ArgTokens(args)
    ensures Parse(before + Typed(line) + after) == Ok(Command(command, ArgsMap(args)))
  {
    hide JsSpace, Tokens, Parsed, LegalLine, LegalStart, LegalArgs, Typed;
    SurroundedLine(before, Typed(line), after);
    LineTokens(line, "");
    assert Typed(line) + "" == Typed(line);
    CommandWithArgs(prefix, command, extras, args);
  }
}
