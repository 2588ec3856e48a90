/** The example command lines shown for a template, and how the web playground reads them. */
module ExampleCli {
  import opened Wrappers
  import opened Strings
  import opened Json
  import opened Tokeniser
  import opened CliImport

  // ---- building the line ----------------------------------------------------------------

  datatype ParamType = StringType | IntegerType | NumberType | BooleanType | NullType | ArrayType | ObjectType

  datatype ParamSpec = ParamSpec(name: string, paramType: ParamType, default: Option<Json>)

  /** `Display` of a JSON value; `toString` prints arrays and objects. */
  function JsonText(value: Json, toString: Json -> string): string {
    match value
    case Null => "null"
    case Bool(v) => if v then "true" else "false"
    case Number(v) => v
    case _ => toString(value)
  }

  function ExampleValue(value: Json, toString: Json -> string): string {
    match value
    case String(text) => ShellQuote(text)
    case Array(_) => ShellQuote(toString(value))
    case Object(_) => ShellQuote(toString(value))
    case _ => JsonText(value, toString)
  }

  function Placeholder(t: ParamType): string {
    match t
    case StringType => "\"\""
    case IntegerType => "0"
    case NumberType => "0"
    case BooleanType => "true"
    case NullType => "null"
    case ArrayType => "'[]'"
    case ObjectType => "'{}'"
  }

  function PrintedValue(param: ParamSpec, toString: Json -> string): string {
    match param.default
    case Some(value) => ExampleValue(value, toString)
    case None => Placeholder(param.paramType)
  }

  function ExampleArg(param: ParamSpec, toString: Json -> string): string {
    "--" + param.name + " " + PrintedValue(param, toString)
  }

  function ExampleLine(key: string, params: seq<ParamSpec>, toString: Json -> string): string {
    if params == [] then "earl call " + key
    else "earl call " + key + " " + Join(Map(p => ExampleArg(p, toString), params), " ")
  }

  // ---- what the line stands for ------------------------------------------------------------

  /** The text a parameter's example stands for. */
  function ExampleText(param: ParamSpec, toString: Json -> string): string {
    match param.default
    case Some(String(text)) => text
    case Some(Null) => "null"
    case Some(Bool(flag)) => if flag then "true" else "false"
    case Some(Number(text)) => text
    case Some(value) => toString(value)
    case None =>
      match param.paramType
      case StringType => ""
      case IntegerType => "0"
      case NumberType => "0"
      case BooleanType => "true"
      case NullType => "null"
      case ArrayType => "[]"
      case ObjectType => "{}"
  }

  /** Read as itself by the tokeniser. */
  predicate PlainWord(s: string) {
    s != "" && NoBackslash(s) && !NeedsQuotes(s)
  }

  predicate PlainName(name: string) {
    PlainWord(name) && '=' !in name && name != "__proto__"
  }

  predicate NumbersPlain(value: Json) {
    value.Number? ==> PlainWord(value.text)
  }

  ghost predicate PlainParam(param: ParamSpec, toString: Json -> string) {
    && PlainName(param.name)
    && (param.default.Some? ==> NumbersPlain(param.default.value))
  }

  /** No parameter's text has a backslash. */
  ghost predicate BackslashFree(params: seq<ParamSpec>, toString: Json -> string) {
    forall i :: 0 <= i < |params| ==> NoBackslash(ExampleText(params[i], toString))
  }

  /** The printed value is read as the text it stands for. */
  lemma ValueDenotes(param: ParamSpec, toString: Json -> string)
    requires PlainParam(param, toString) && NoBackslash(ExampleText(param, toString))
    ensures Denotes(PrintedValue(param, toString), ExampleText(param, toString))
  {
    var text := ExampleText(param, toString);
    match param.default
    case Some(String(_)) => QuotedDenotes(text);
    case Some(Array(_)) => QuotedDenotes(text);
    case Some(Object(_)) => QuotedDenotes(text);
    case Some(_) => ScalarPlain(param.default.value, toString); PlainDenotes(text);
    case None => PlaceholderDenotes(param.paramType, text);
  }

  lemma ScalarPlain(value: Json, toString: Json -> string)
    requires (value.Null? || value.Bool? || value.Number?) && NumbersPlain(value)
    ensures NoBackslash(JsonText(value, toString)) && !NeedsQuotes(JsonText(value, toString))
  {
  }

  lemma PlaceholderDenotes(t: ParamType, text: string)
    requires text == ExampleText(ParamSpec("", t, None), _ => "")
    ensures Denotes(Placeholder(t), text)
  {
    match t
    case StringType => EmptyDenotes();
    case ArrayType =>
      Escaped2('[', ']');
      SingleQuotedDenotes("[]");
      assert "'" + "[]" + "'" == "'[]'";
    case ObjectType =>
      Escaped2('{', '}');
      SingleQuotedDenotes("{}");
      assert "'" + "{}" + "'" == "'{}'";
    case _ => PlainDenotes(text);
  }

  lemma Escaped2(a: char, b: char)
    requires a != '\'' && b != '\''
    ensures EscapeQuotes([a, b]) == [a, b]
  {
    assert [a, b][1..] == [b] && [b][1..] == "";
    assert EscapeQuotes([b]) == [b] + EscapeQuotes("");
    assert EscapeQuotes([a, b]) == [a] + EscapeQuotes([b]);
  }

  // ---- the words of the line ------------------------------------------------------------

  function PrintedPairs(params: seq<ParamSpec>, toString: Json -> string): seq<string> {
    if params == [] then []
    else ["--" + params[0].name, PrintedValue(params[0], toString)] + PrintedPairs(params[1..], toString)
  }

  function TextPairs(params: seq<ParamSpec>, toString: Json -> string): (texts: seq<string>)
  {
    if params == [] then []
    else ["--" + params[0].name, ExampleText(params[0], toString)] + TextPairs(params[1..], toString)
  }

  lemma {:induction false} JoinPairs(params: seq<ParamSpec>, toString: Json -> string)
    ensures Join(Map(p => ExampleArg(p, toString), params), " ") == Join(PrintedPairs(params, toString), " ")
  {
    if params == [] {
    } else {
      var args := Map(p => ExampleArg(p, toString), params);
      assert args[1..] == Map(p => ExampleArg(p, toString), params[1..]);
      JoinPairs(params[1..], toString);
      JoinTwo("--" + params[0].name, PrintedValue(params[0], toString), PrintedPairs(params[1..], toString));
    }
  }

  lemma JoinTwo(a: string, b: string, rest: seq<string>)
    ensures Join([a, b] + rest, " ")
            == if rest == [] then a + " " + b else a + " " + b + " " + Join(rest, " ")
  {
    assert ([a, b] + rest)[1..] == [b] + rest;
    assert ([b] + rest)[1..] == rest;
    if rest == [] {
    } else {
      FourParts(a + " ", b, " ", Join(rest, " "));
    }
  }

  lemma FourParts(a: string, b: string, c: string, d: string)
    ensures a + (b + c + d) == a + b + c + d
  {
  }

  lemma JoinKey(key: string, pairs: seq<string>)
    ensures Join([key] + pairs, " ") == if pairs == [] then key else key + " " + Join(pairs, " ")
  {
    assert ([key] + pairs)[1..] == pairs;
  }

  lemma LineIsJoined(key: string, params: seq<ParamSpec>, toString: Json -> string)
    ensures ExampleLine(key, params, toString)
            == Join(["earl", "call"] + ([key] + PrintedPairs(params, toString)), " ")
  {
    hide Join;
    var pairs := PrintedPairs(params, toString);
    JoinPairs(params, toString);
    JoinTwo("earl", "call", [key] + pairs);
    JoinKey(key, pairs);
    assert "earl" + " " + "call" + " " == "earl call ";
    FourParts("earl call ", key, " ", Join(pairs, " "));
  }

  // ---- the flags are read as pairs --------------------------------------------------------

  datatype Pair = Pair(name: string, text: string)

  /** The tokens of name and text pairs: an empty text leaves no token. */
  function PairTokens(pairs: seq<Pair>): seq<string> {
    if pairs == [] then []
    else ["--" + pairs[0].name] + (if pairs[0].text == "" then [] else [pairs[0].text]) + PairTokens(pairs[1..])
  }

  /** The texts come back: not empty, and not taken for a flag. */
  predicate Recoverable(text: string) { text != "" && !IsFlag(text) }

  ghost predicate PairsOk(pairs: seq<Pair>) {
    && (forall i :: 0 <= i < |pairs| ==> PlainName(pairs[i].name))
    && (forall i, j :: 0 <= i < j < |pairs| ==> pairs[i].name != pairs[j].name)
  }

  ghost predicate AllRecoverable(pairs: seq<Pair>) {
    forall i :: 0 <= i < |pairs| ==> Recoverable(pairs[i].text)
  }

  /** The pairs as an object, later ones winning. */
  function Assigned(args: map<string, string>, pairs: seq<Pair>): map<string, string>
    decreases |pairs|
  {
    if pairs == [] then args else Assigned(args[pairs[0].name := pairs[0].text], pairs[1..])
  }

  lemma NextIsFlag(pairs: seq<Pair>)
    requires pairs != []
    ensures PairTokens(pairs) != [] && IsFlag(PairTokens(pairs)[0]) && PairTokens(pairs)[0][2..] == pairs[0].name
  {
  }

  lemma PlainNameHasNoEq(name: string)
    requires PlainName(name)
    ensures Find(name, "=") == None
  {
    FindChar(name, '=');
  }

  /** A recoverable pair is read as an argument. */
  lemma GoodPair(pairs: seq<Pair>, args: map<string, string>)
    requires pairs != [] && PlainName(pairs[0].name) && Recoverable(pairs[0].text)
    ensures Flags(PairTokens(pairs), args)
            == Flags(PairTokens(pairs[1..]), args[pairs[0].name := pairs[0].text])
  {
    var tokens := PairTokens(pairs);
    NextIsFlag(pairs);
    PlainNameHasNoEq(pairs[0].name);
    assert tokens[1] == pairs[0].text && tokens[2..] == PairTokens(pairs[1..]);
  }

  /** Written with an equals sign, every text is taken as it is, empty ones and ones like flags too. */
  lemma EqualsForm(name: string, text: string, rest: seq<string>, args: map<string, string>)
    requires PlainName(name)
    ensures Flags(["--" + name + "=" + text] + rest, args) == Flags(rest, args[name := text])
  {
    var token := "--" + name + "=" + text;
    var tokens := [token] + rest;
    assert tokens[1..] == rest;
    EqualsToken(name, text);
  }

  lemma EqualsToken(name: string, text: string)
    requires PlainName(name)
    ensures var token := "--" + name + "=" + text;
            && IsFlag(token) && token[2..] != "" && Find(token[2..], "=") == Some(|name|)
            && token[2..][..|name|] == name && token[2..][|name| + 1..] == text
  {
    var token := "--" + name + "=" + text;
    assert token[2..] == name + ['='] + text && "=" == ['='];
    FindFirst(name, '=', text);
  }

  /** The arguments after a name whose text is lost: empty, or taken for a flag itself. */
  function Misassigned(args: map<string, string>, name: string, text: string): map<string, string>
    requires !Recoverable(text)
  {
    var next := args[name := "true"];
    if text == "" then next
    else
      match Find(text[2..], "=")
      case Some(eq) => SetArg(next, text[2..][..eq], text[2..][eq + 1..])
      case None => SetArg(next, text[2..], "true")
  }

  lemma MisassignedEmpty(args: map<string, string>, name: string)
    ensures Misassigned(args, name, "") == args[name := "true"]
  {
  }

  lemma MisassignedDiffers(args: map<string, string>, name: string, text: string)
    requires !Recoverable(text)
    ensures name in Misassigned(args, name, text) && Misassigned(args, name, text)[name] != text
  {
    assert text != "" ==> text[0] == '-' && "true"[0] != '-';
  }

  /** A text that looks like a flag is read as one: what follows it is a flag or the end. */
  lemma TextAsFlag(args: map<string, string>, name: string, text: string, rest: seq<string>)
    requires text != "" && !Recoverable(text) && (rest == [] || IsFlag(rest[0]))
    ensures var r := Flags([text] + rest, args[name := "true"]);
            r.Ok? ==> r == Flags(rest, Misassigned(args, name, text))
  {
    assert ([text] + rest)[1..] == rest;
  }

  lemma NameAlone(name: string, args: map<string, string>, more: seq<string>)
    requires PlainName(name) && (more == [] || IsFlag(more[0]))
    ensures Flags(["--" + name] + more, args) == Flags(more, args[name := "true"])
  {
    var tokens := ["--" + name] + more;
    PlainNameHasNoEq(name);
    assert tokens[1..] == more && tokens[0][2..] == name;
  }

  lemma BadPair(pairs: seq<Pair>, args: map<string, string>)
    requires pairs != [] && PlainName(pairs[0].name) && !Recoverable(pairs[0].text)
    ensures var r := Flags(PairTokens(pairs), args);
            r.Ok? ==> r == Flags(PairTokens(pairs[1..]), Misassigned(args, pairs[0].name, pairs[0].text))
  {
    hide Flags, Misassigned;
    var name, text, rest := pairs[0].name, pairs[0].text, PairTokens(pairs[1..]);
    if pairs[1..] != [] { NextIsFlag(pairs[1..]); }
    if text == "" {
      assert ["--" + name] + [] + rest == ["--" + name] + rest;
      NameAlone(name, args, rest);
      MisassignedEmpty(args, name);
    } else {
      assert ["--" + name] + [text] + rest == ["--" + name] + ([text] + rest);
      NameAlone(name, args, [text] + rest);
      TextAsFlag(args, name, text, rest);
    }
  }

  lemma {:induction false} FlagsRecover(pairs: seq<Pair>, args: map<string, string>)
    requires PairsOk(pairs) && AllRecoverable(pairs)
    ensures Flags(PairTokens(pairs), args) == Ok(Assigned(args, pairs))
    decreases |pairs|
  {
    if pairs == [] {
    } else {
      GoodPair(pairs, args);
      FlagsRecover(pairs[1..], args[pairs[0].name := pairs[0].text]);
    }
  }

  lemma {:induction false} AssignedKeeps(args: map<string, string>, pairs: seq<Pair>, name: string)
    requires forall i :: 0 <= i < |pairs| ==> pairs[i].name != name
    ensures name in Assigned(args, pairs) <==> name in args
    ensures name in args ==> Assigned(args, pairs)[name] == args[name]
    decreases |pairs|
  {
    if pairs == [] {
    } else {
      AssignedKeeps(args[pairs[0].name := pairs[0].text], pairs[1..], name);
    }
  }

  lemma {:induction false} AssignedHas(args: map<string, string>, pairs: seq<Pair>, i: nat)
    requires PairsOk(pairs) && i < |pairs|
    ensures pairs[i].name in Assigned(args, pairs) && Assigned(args, pairs)[pairs[i].name] == pairs[i].text
    decreases |pairs|
  {
    var next := args[pairs[0].name := pairs[0].text];
    if i == 0 {
      AssignedKeeps(next, pairs[1..], pairs[0].name);
    } else {
      AssignedHas(next, pairs[1..], i - 1);
    }
  }

  /** If some text does not come back, reading fails or a name has a different value. */
  lemma {:induction false} FlagsLose(pairs: seq<Pair>, args: map<string, string>)
    requires PairsOk(pairs) && !AllRecoverable(pairs)
    ensures var r := Flags(PairTokens(pairs), args);
            r.Ok? ==> exists i :: 0 <= i < |pairs|
                                  && (pairs[i].name !in r.value || r.value[pairs[i].name] != pairs[i].text)
    decreases |pairs|
  {
    hide Flags, PairTokens, Assigned, Misassigned, Recoverable, PlainName;
    var r := Flags(PairTokens(pairs), args);
    var rest := pairs[1..];
    var next := args[pairs[0].name := pairs[0].text];
    if Recoverable(pairs[0].text) {
      GoodPair(pairs, args);
    } else {
      BadPair(pairs, args);
      MisassignedDiffers(args, pairs[0].name, pairs[0].text);
      next := Misassigned(args, pairs[0].name, pairs[0].text);
    }
    if r.Ok? {
      if AllRecoverable(rest) {
        FlagsRecover(rest, next);
        AssignedKeeps(next, rest, pairs[0].name);
        assert !Recoverable(pairs[0].text);
      } else {
        FlagsLose(rest, next);
        var i :| 0 <= i < |rest| && (rest[i].name !in r.value || r.value[rest[i].name] != rest[i].text);
        assert rest[i] == pairs[i + 1];
      }
    }
  }

  // ---- the whole line -----------------------------------------------------------------------

  function Pairs(params: seq<ParamSpec>, toString: Json -> string): seq<Pair> {
    Map((p: ParamSpec) => Pair(p.name, ExampleText(p, toString)), params)
  }

  lemma {:induction false} NonEmptyPairs(params: seq<ParamSpec>, toString: Json -> string)
    ensures NonEmptyOnly(TextPairs(params, toString)) == PairTokens(Pairs(params, toString))
    decreases |params|
  {
    if params == [] {
    } else {
      var name, text, more := "--" + params[0].name, ExampleText(params[0], toString), TextPairs(params[1..], toString);
      NonEmptyPairs(params[1..], toString);
      assert Pairs(params, toString)[1..] == Pairs(params[1..], toString);
      assert ([name, text] + more)[1..] == [text] + more && ([text] + more)[1..] == more;
      assert NonEmptyOnly([text] + more) == (if text == "" then [] else [text]) + NonEmptyOnly(more);
      Regroup([name], if text == "" then [] else [text], NonEmptyOnly(more));
    }
  }

  lemma {:induction false} PairsDenote(params: seq<ParamSpec>, toString: Json -> string)
    requires forall i :: 0 <= i < |params| ==> PlainParam(params[i], toString)
    requires BackslashFree(params, toString)
    ensures |PrintedPairs(params, toString)| == |TextPairs(params, toString)|
    ensures forall i :: 0 <= i < |PrintedPairs(params, toString)|
              ==> Denotes(PrintedPairs(params, toString)[i], TextPairs(params, toString)[i])
                  && EndsInInk(PrintedPairs(params, toString)[i])
    decreases |params|
  {
    hide Denotes, ExampleText, PrintedValue, EndsInInk;
    if params == [] {
    } else {
      var name := params[0].name;
      NeedsQuotesFlag(name);
      PlainDenotes("--" + name);
      ValueDenotes(params[0], toString);
      ValueEndsInInk(params[0], toString);
      PairsDenote(params[1..], toString);
    }
  }

  lemma NeedsQuotesFlag(name: string)
    requires PlainWord(name)
    ensures NoBackslash("--" + name) && !NeedsQuotes("--" + name) && EndsInInk("--" + name)
  {
    var s := "--" + name;
    forall i | 0 <= i < |s| ensures s[i] == if i < 2 then '-' else name[i - 2] {}
  }

  /** Not empty, and the last character is no white space. */
  predicate EndsInInk(s: string) { s != "" && !IsWhitespace(s[|s| - 1]) }

  lemma ValueEndsInInk(param: ParamSpec, toString: Json -> string)
    requires PlainParam(param, toString)
    ensures EndsInInk(PrintedValue(param, toString))
  {
    var text := ExampleText(param, toString);
    match param.default
    case Some(String(_)) => QuotedEndsInInk(text);
    case Some(Array(_)) => QuotedEndsInInk(text);
    case Some(Object(_)) => QuotedEndsInInk(text);
    case _ =>
  }

  lemma QuotedEndsInInk(s: string)
    ensures EndsInInk(ShellQuote(s))
  {
    if !NeedsQuotes(s) && s != "" { assert !IsWhitespace(s[|s| - 1]); }
  }

  lemma {:induction false} JoinEndsInInk(words: seq<string>)
    requires words != [] && forall i :: 0 <= i < |words| ==> EndsInInk(words[i])
    ensures EndsInInk(Join(words, " "))
    decreases |words|
  {
    if |words| > 1 { JoinEndsInInk(words[1..]); }
  }

  /** The line is its own trimmed text, and it has the words as tokens. */
  lemma {:induction false} LineTokens(key: string, params: seq<ParamSpec>, toString: Json -> string)
    requires PlainWord(key)
    requires forall i :: 0 <= i < |params| ==> PlainParam(params[i], toString)
    requires BackslashFree(params, toString)
    ensures EndsInInk(ExampleLine(key, params, toString))
    ensures Tokens(ExampleLine(key, params, toString))
            == Ok(["earl", "call"] + ([key] + PairTokens(Pairs(params, toString))))
  {
    hide Join, PairTokens, Pairs, PrintedPairs, TextPairs, ExampleLine, Denotes, NonEmptyOnly;
    var printed := ["earl", "call"] + ([key] + PrintedPairs(params, toString));
    var texts := ["earl", "call"] + ([key] + TextPairs(params, toString));
    LineIsJoined(key, params, toString);
    PairsDenote(params, toString);
    PlainDenotes("earl");
    PlainDenotes("call");
    PlainDenotes(key);
    forall i | 0 <= i < |printed| ensures Denotes(printed[i], texts[i]) && EndsInInk(printed[i]) {
      if i >= 3 { assert printed[i] == PrintedPairs(params, toString)[i - 3]; }
    }
    JoinEndsInInk(printed);
    FeedJoined([], printed, texts);
    NonEmptyHead(key, TextPairs(params, toString));
    NonEmptyPairs(params, toString);
    assert [] + NonEmptyOnly(texts) == NonEmptyOnly(texts);
  }

  lemma NonEmptyHead(key: string, more: seq<string>)
    requires key != ""
    ensures NonEmptyOnly(["earl", "call"] + ([key] + more)) == ["earl", "call"] + ([key] + NonEmptyOnly(more))
  {
    var tail := [key] + more;
    assert tail[1..] == more;
    assert (["call"] + tail)[1..] == tail;
    assert (["earl", "call"] + tail)[1..] == ["call"] + tail;
    assert NonEmptyOnly(tail) == [key] + NonEmptyOnly(more);
    assert NonEmptyOnly(["call"] + tail) == ["call"] + NonEmptyOnly(tail);
  }

  lemma LineTrimmed(key: string, params: seq<ParamSpec>, toString: Json -> string)
    requires EndsInInk(ExampleLine(key, params, toString))
    requires !EndsWith(ExampleLine(key, params, toString), "\U{FEFF}")
    ensures TrimBy(ExampleLine(key, params, toString), JsSpace) == ExampleLine(key, params, toString)
  {
    var line := ExampleLine(key, params, toString);
    assert line[0] == 'e';
    assert line[|line| - 1..] == [line[|line| - 1]];
    TrimNothing(line, JsSpace);
  }

  lemma ParsedLine(key: string, pairs: seq<Pair>)
    requires !IsFlag(key)
    ensures Parsed(["earl", "call"] + ([key] + PairTokens(pairs)))
            == match Flags(PairTokens(pairs), map[])
               case Err(e) => Err(e)
               case Ok(args) => Ok(Command(key, args))
  {
    hide Flags, StripPrefix, PairTokens;
    var flags := PairTokens(pairs);
    NoFlagsOrFlag(pairs);
    StripEarlCall([key] + flags);
    assert ([key] + flags)[1..] == flags;
    assert Positionals(flags) == 0;
  }

  lemma NoFlagsOrFlag(pairs: seq<Pair>)
    ensures PairTokens(pairs) == [] || IsFlag(PairTokens(pairs)[0])
  {
    if pairs != [] { NextIsFlag(pairs); }
  }

  lemma StripEarlCall(rest: seq<string>)
    ensures StripPrefix(["earl", "call"] + rest) == rest
  {
    assert (["earl", "call"] + rest)[2..] == rest;
  }

  /** The result is the key, with exactly the parameters' names, each with its text. */
  ghost predicate ReadBack(
      r: Result<Command, CliError>, key: string, params: seq<ParamSpec>, toString: Json -> string)
  {
    && r.Ok? && r.value.command == key
    && (forall i :: 0 <= i < |params| ==> params[i].name in r.value.args
                                          && r.value.args[params[i].name] == ExampleText(params[i], toString))
    && forall name :: name in r.value.args ==> exists i :: 0 <= i < |params| && params[i].name == name
  }

  /** Pairs that are all recoverable come back. */
  lemma GoodLine(key: string, params: seq<ParamSpec>, toString: Json -> string)
    requires PairsOk(Pairs(params, toString)) && AllRecoverable(Pairs(params, toString))
    ensures ReadBack(
              match Flags(PairTokens(Pairs(params, toString)), map[])
              case Err(e) => Err(e)
              case Ok(args) => Ok(Command(key, args)), key, params, toString)
  {
    hide PairTokens, Flags;
    var pairs := Pairs(params, toString);
    FlagsRecover(pairs, map[]);
    forall i | 0 <= i < |params| ensures pairs[i].name in Assigned(map[], pairs)
        && Assigned(map[], pairs)[pairs[i].name] == pairs[i].text {
      AssignedHas(map[], pairs, i);
    }
    forall name | name in Assigned(map[], pairs) ensures exists i :: 0 <= i < |params| && params[i].name == name {
      if forall i :: 0 <= i < |pairs| ==> pairs[i].name != name { AssignedKeeps(map[], pairs, name); }
    }
  }

  lemma BadLine(key: string, params: seq<ParamSpec>, toString: Json -> string)
    requires PairsOk(Pairs(params, toString)) && !AllRecoverable(Pairs(params, toString))
    ensures !ReadBack(
              match Flags(PairTokens(Pairs(params, toString)), map[])
              case Err(e) => Err(e)
              case Ok(args) => Ok(Command(key, args)), key, params, toString)
  {
    hide PairTokens, Flags;
    FlagsLose(Pairs(params, toString), map[]);
  }

  lemma PairsFit(params: seq<ParamSpec>, toString: Json -> string)
    requires forall i :: 0 <= i < |params| ==> PlainParam(params[i], toString)
    requires forall i, j :: 0 <= i < j < |params| ==> params[i].name != params[j].name
    ensures PairsOk(Pairs(params, toString))
    ensures AllRecoverable(Pairs(params, toString))
            <==> forall i :: 0 <= i < |params| ==> Recoverable(ExampleText(params[i], toString))
  {
    hide ExampleText, Recoverable, PlainName;
    var pairs := Pairs(params, toString);
    if AllRecoverable(pairs) {
      forall i | 0 <= i < |params| ensures Recoverable(ExampleText(params[i], toString)) {
        assert Recoverable(pairs[i].text);
      }
    }
  }

  /** Without backslashes, an example line is read back exactly when no text is empty or looks like a flag. */
  lemma {:induction false} CleanLineReadsBack(key: string, params: seq<ParamSpec>, toString: Json -> string)
    requires PlainWord(key) && !IsFlag(key)
    requires forall i :: 0 <= i < |params| ==> PlainParam(params[i], toString)
    requires BackslashFree(params, toString)
    requires forall i, j :: 0 <= i < j < |params| ==> params[i].name != params[j].name
    requires !EndsWith(ExampleLine(key, params, toString), "\U{FEFF}")
    ensures ReadBack(Parse(ExampleLine(key, params, toString)), key, params, toString)
            <==> forall i :: 0 <= i < |params| ==> Recoverable(ExampleText(params[i], toString))
  {
    hide *;
    var pairs := Pairs(params, toString);
    LineTokens(key, params, toString);
    LineTrimmed(key, params, toString);
    ParsedLine(key, pairs);
    ParseTrimmed(ExampleLine(key, params, toString));
    PairsFit(params, toString);
    if AllRecoverable(pairs) {
      GoodLine(key, params, toString);
    } else {
      BadLine(key, params, toString);
    }
  }

  lemma ParseTrimmed(line: string)
    requires EndsInInk(line) && TrimBy(line, JsSpace) == line && Tokens(line).Ok?
    ensures Parse(line) == Parsed(Tokens(line).value)
  {
  }
}
