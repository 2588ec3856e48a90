/** Reading a command line back into a command and its arguments (the web playground's import). */
module CliImport {
  import opened Wrappers
  import opened Strings
  import opened Tokeniser

  datatype CliError =
    | EmptyInput
    | Unreadable(reason: TokenError)
    | NoCommand
    | UnexpectedArgument(token: string)
    | EmptyFlagName

  /** The characters that JavaScript's `trim` removes. */
  predicate JsSpace(c: char) {
    c == '\U{FEFF}' || (IsWhitespace(c) && c != '\U{0085}')
  }

  predicate IsFlag(token: string) { StartsWith(token, "--") }

  function StripPrefix(tokens: seq<string>): seq<string> {
    if tokens == [] || tokens[0] != "earl" then tokens
    else if |tokens| == 1 || tokens[1] != "call" then tokens[1..]
    else tokens[2..]
  }

  /** Assigning a string to an object's `__proto__` has no effect. */
  function SetArg(args: map<string, string>, key: string, value: string): map<string, string> {
    if key == "__proto__" then args else args[key := value]
  }

  /** The arguments that the flags in `tokens` add to `args`. */
  function Flags(tokens: seq<string>, args: map<string, string>): Result<map<string, string>, CliError>
    decreases |tokens|
  {
    if tokens == [] then Ok(args)
    else if !IsFlag(tokens[0]) then Err(UnexpectedArgument(tokens[0]))
    else
      var key := tokens[0][2..];
      if key == "" then Err(EmptyFlagName)
      else
        match Find(key, "=")
        case Some(eq) => Flags(tokens[1..], SetArg(args, key[..eq], key[eq + 1..]))
        case None =>
          if |tokens| == 1 || IsFlag(tokens[1]) then Flags(tokens[1..], SetArg(args, key, "true"))
          else Flags(tokens[2..], SetArg(args, key, tokens[1]))
  }

  method ParseFlags(remaining: seq<string>, start: nat) returns (r: Result<map<string, string>, CliError>)
    requires start <= |remaining|
    ensures r == Flags(remaining[start..], map[])
  {
    hide Find, SetArg;
    var args: map<string, string> := map[];
    var i := start;
    while i < |remaining|
      invariant start <= i <= |remaining|
      invariant Flags(remaining[i..], args) == Flags(remaining[start..], map[])
    {
      var token := remaining[i];
      if !StartsWith(token, "--") {
        return Err(UnexpectedArgument(token));
      }
      var key := token[2..];
      if |key| == 0 {
        return Err(EmptyFlagName);
      }
      assert remaining[i..][1..] == remaining[i + 1..];
      var eqIndex := Find(key, "=");
      if eqIndex.Some? {
        args := SetArg(args, key[..eqIndex.value], key[eqIndex.value + 1..]);
        i := i + 1;
        continue;
      }
      if i + 1 == |remaining| || StartsWith(remaining[i + 1], "--") {
        args := SetArg(args, key, "true");
        i := i + 1;
        continue;
      }
      assert remaining[i..][2..] == remaining[i + 2..];
      args := SetArg(args, key, remaining[i + 1]);
      i := i + 2;
    }
    return Ok(args);
  }

  /** The number of tokens in front of the first flag. */
  function Positionals(tokens: seq<string>): (n: nat)
    ensures n <= |tokens|
  {
    if tokens == [] || IsFlag(tokens[0]) then 0 else 1 + Positionals(tokens[1..])
  }

  datatype Command = Command(command: string, args: map<string, string>)

  /** The command is the first token that is no flag; further ones before the first flag are dropped. */
  function Parsed(tokens: seq<string>): Result<Command, CliError> {
    var remaining := StripPrefix(tokens);
    var n := Positionals(remaining);
    if n == 0 then Err(NoCommand)
    else
      match Flags(remaining[n..], map[])
      case Err(e) => Err(e)
      case Ok(args) => Ok(Command(remaining[0], args))
  }

  function Parse(input: string): Result<Command, CliError> {
    var trimmed := TrimBy(input, JsSpace);
    if trimmed == "" then Err(EmptyInput)
    else
      match Tokens(trimmed)
      case Err(e) => Err(Unreadable(e))
      case Ok(tokens) => Parsed(tokens)
  }

  method ParseCliCommand(input: string) returns (r: Result<Command, CliError>)
    ensures r == Parse(input)
  {
    var trimmed := TrimBy(input, JsSpace);
    if |trimmed| == 0 {
      return Err(EmptyInput);
    }
    var tokens := Tokenise(trimmed);
    if tokens.Err? {
      return Err(Unreadable(tokens.error));
    }
    var remaining := StripPrefix(tokens.value);
    if |remaining| == 0 {
      return Err(NoCommand);
    }
    var command: Option<string> := None;
    var i := 0;
    while i < |remaining|
      invariant 0 <= i <= |remaining|
      invariant Positionals(remaining) == i + Positionals(remaining[i..])
      invariant command == if i == 0 then None else Some(remaining[0])
    {
      assert remaining[i..][1..] == remaining[i + 1..];
      if StartsWith(remaining[i], "--") {
        break;
      }
      if command.None? {
        command := Some(remaining[i]);
      }
      i := i + 1;
    }
    if command.None? {
      return Err(NoCommand);
    }
    var args := ParseFlags(remaining, i);
    if args.Err? {
      return Err(args.error);
    }
    return Ok(Command(command.value, args.value));
  }
}
