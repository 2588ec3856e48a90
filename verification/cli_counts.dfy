/** How often a character can come through the tokeniser and the flag parser. */
module CliCounts {
  import opened Wrappers
  import opened Strings
  import opened Tokeniser
  import opened CliImport

  // ---- counting -------------------------------------------------------------------------

  function Count(c: char, s: string): nat {
    if s == "" then 0 else (if s[0] == c then 1 else 0) + Count(c, s[1..])
  }

  function CountAll(c: char, parts: seq<string>): nat {
    if parts == [] then 0 else Count(c, parts[0]) + CountAll(c, parts[1..])
  }

  lemma {:induction false} CountAppend(c: char, a: string, b: string)
    ensures Count(c, a + b) == Count(c, a) + Count(c, b)
    decreases |a|
  {
    if a == "" {
      assert a + b == b;
    } else {
      assert (a + b)[1..] == a[1..] + b;
      CountAppend(c, a[1..], b);
    }
  }

  lemma {:induction false} CountAllAppend(c: char, a: seq<string>, b: seq<string>)
    ensures CountAll(c, a + b) == CountAll(c, a) + CountAll(c, b)
    decreases |a|
  {
    if a == [] {
      assert a + b == b;
    } else {
      assert (a + b)[1..] == a[1..] + b;
      CountAllAppend(c, a[1..], b);
    }
  }

  lemma CountDrop(c: char, s: string, n: nat)
    requires n <= |s|
    ensures Count(c, s[..n]) + Count(c, s[n..]) == Count(c, s)
  {
    assert s[..n] + s[n..] == s;
    CountAppend(c, s[..n], s[n..]);
  }

  lemma CountAllDrop(c: char, parts: seq<string>, n: nat)
    requires n <= |parts|
    ensures CountAll(c, parts[..n]) + CountAll(c, parts[n..]) == CountAll(c, parts)
  {
    assert parts[..n] + parts[n..] == parts;
    CountAllAppend(c, parts[..n], parts[n..]);
  }

  lemma {:induction false} CountZero(c: char, s: string)
    ensures Count(c, s) == 0 <==> c !in s
  {
    if s == "" {
    } else {
      CountZero(c, s[1..]);
      assert s == [s[0]] + s[1..];
    }
  }

  // ---- the tokeniser --------------------------------------------------------------------

  /** How often `c` stands in the tokens and in the unfinished one. */
  function Content(c: char, st: TokState): nat {
    CountAll(c, st.tokens) + Count(c, st.current)
  }

  lemma PushKeeps(c: char, tokens: seq<string>, current: string)
    ensures CountAll(c, tokens + [current]) == CountAll(c, tokens) + Count(c, current)
  {
    CountAllAppend(c, tokens, [current]);
    assert [current][1..] == [];
  }

  lemma GrowCounts(c: char, current: string, ch: char)
    ensures Count(c, current + [ch]) == Count(c, current) + if ch == c then 1 else 0
  {
    CountAppend(c, current, [ch]);
    assert [ch][1..] == "";
  }

  /** A character adds itself at most. */
  lemma ProcessCounts(c: char, st: TokState, ch: char)
    ensures Content(c, Process(st, ch)) <= Content(c, st) + if ch == c then 1 else 0
    ensures c == '\\' ==>
              Content(c, Process(st, ch)) == Content(c, st) + if st.isEscaped && ch == '\\' then 1 else 0
    ensures Process(st, ch).isEscaped <==> !st.isEscaped && ch == '\\'
  {
    hide CountAll, Count;
    PushKeeps(c, st.tokens, st.current);
    GrowCounts(c, st.current, ch);
    NothingCounts(c);
  }

  lemma NothingCounts(c: char)
    ensures Count(c, "") == 0
  {
  }

  lemma {:induction false} FeedCounts(c: char, st: TokState, input: string)
    ensures Content(c, Feed(st, input)) <= Content(c, st) + Count(c, input)
    decreases |input|
  {
    hide Content;
    if input == "" {
    } else {
      ProcessCounts(c, st, input[0]);
      FeedCounts(c, Process(st, input[0]), input[1..]);
    }
  }

  /** Backslashes that follow an escaping one: only they come through. */
  function Doubled(input: string, escaped: bool): nat {
    if input == "" then 0
    else if escaped then (if input[0] == '\\' then 1 else 0) + Doubled(input[1..], false)
    else Doubled(input[1..], input[0] == '\\')
  }

  lemma {:induction false} FeedDoubled(st: TokState, input: string)
    ensures Content('\\', Feed(st, input)) == Content('\\', st) + Doubled(input, st.isEscaped)
    decreases |input|
  {
    hide Content;
    if input == "" {
    } else {
      ProcessCounts('\\', st, input[0]);
      FeedDoubled(Process(st, input[0]), input[1..]);
    }
  }

  lemma FinishCounts(c: char, st: TokState)
    requires Finish(st).Ok?
    ensures CountAll(c, Finish(st).value) == Content(c, st)
  {
    PushKeeps(c, st.tokens, st.current);
  }

  /** The tokens hold no character more often than the input, and backslashes only in pairs. */
  lemma TokensCount(c: char, input: string)
    requires Tokens(input).Ok?
    ensures CountAll(c, Tokens(input).value) <= Count(c, input)
    ensures CountAll('\\', Tokens(input).value) == Doubled(input, false)
  {
    hide Finish;
    FeedCounts(c, START, input);
    FeedDoubled(START, input);
    FinishCounts(c, Feed(START, input));
    FinishCounts('\\', Feed(START, input));
  }

  lemma {:induction false} DoubledPrefix(a: string, b: string, escaped: bool)
    ensures Doubled(a, escaped) <= Doubled(a + b, escaped)
    decreases |a|
  {
    if a == "" {
    } else {
      assert (a + b)[1..] == a[1..] + b;
      DoubledPrefix(a[1..], b, if escaped then false else a[0] == '\\');
    }
  }

  // ---- the flags --------------------------------------------------------------------------

  /** How often `c` stands in those of the names that are assigned, and in their values. */
  function Held(c: char, args: map<string, string>, names: seq<string>): nat {
    if names == [] then 0
    else (if names[0] in args then Count(c, names[0]) + Count(c, args[names[0]]) else 0) + Held(c, args, names[1..])
  }

  ghost predicate DistinctNames(names: seq<string>) {
    forall i, j :: 0 <= i < j < |names| ==> names[i] != names[j]
  }

  lemma {:induction false} HeldElsewhere(
      c: char, args: map<string, string>, names: seq<string>, key: string, value: string)
    requires key !in names
    ensures Held(c, args[key := value], names) == Held(c, args, names)
    decreases |names|
  {
    if names == [] {
    } else {
      assert names[0] in names;
      HeldElsewhere(c, args, names[1..], key, value);
    }
  }

  lemma {:induction false} HeldAssigned(
      c: char, args: map<string, string>, names: seq<string>, key: string, value: string)
    requires DistinctNames(names)
    ensures Held(c, args[key := value], names) <= Held(c, args, names) + Count(c, key) + Count(c, value)
    decreases |names|
  {
    if names == [] {
    } else if names[0] == key {
      assert key !in names[1..];
      HeldElsewhere(c, args, names[1..], key, value);
    } else {
      HeldAssigned(c, args, names[1..], key, value);
    }
  }

  lemma SetArgHolds(c: char, args: map<string, string>, names: seq<string>, key: string, value: string)
    requires DistinctNames(names)
    ensures Held(c, SetArg(args, key, value), names) <= Held(c, args, names) + Count(c, key) + Count(c, value)
  {
    HeldAssigned(c, args, names, key, value);
  }

  lemma EqualsCounts(c: char, key: string, eq: nat)
    requires eq < |key|
    ensures Count(c, key[..eq]) + Count(c, key[eq + 1..]) <= Count(c, key)
  {
    CountDrop(c, key, eq);
    assert key[eq..][1..] == key[eq + 1..];
    CountDrop(c, key[eq..], 1);
  }

  lemma CountTrue(c: char)
    requires c !in "true"
    ensures Count(c, "true") == 0
  {
    CountZero(c, "true");
  }

  /** Reading flags assigns no character more often than the flags hold it. */
  lemma {:induction false} FlagsHold(c: char, tokens: seq<string>, args: map<string, string>, names: seq<string>)
    requires DistinctNames(names) && c !in "true" && Flags(tokens, args).Ok?
    ensures Held(c, Flags(tokens, args).value, names) <= Held(c, args, names) + CountAll(c, tokens)
    decreases |tokens|
  {
    hide Held, Count, SetArg, DistinctNames;
    if tokens == [] {
    } else {
      var key := tokens[0][2..];
      CountDrop(c, tokens[0], 2);
      match Find(key, "=")
      case Some(eq) =>
        var name, value := key[..eq], key[eq + 1..];
        EqualsCounts(c, key, eq);
        SetArgHolds(c, args, names, name, value);
        FlagsHold(c, tokens[1..], SetArg(args, name, value), names);
      case None =>
        if |tokens| == 1 || IsFlag(tokens[1]) {
          CountTrue(c);
          SetArgHolds(c, args, names, key, "true");
          FlagsHold(c, tokens[1..], SetArg(args, key, "true"), names);
        } else {
          assert tokens[1..][1..] == tokens[2..];
          SetArgHolds(c, args, names, key, tokens[1]);
          FlagsHold(c, tokens[2..], SetArg(args, key, tokens[1]), names);
        }
    }
  }

  lemma {:induction false} HeldNothing(c: char, names: seq<string>)
    ensures Held(c, map[], names) == 0
    decreases |names|
  {
    if names == [] {
    } else {
      HeldNothing(c, names[1..]);
    }
  }

  /** A parsed command holds no character more often than its tokens. */
  lemma ParsedHolds(c: char, tokens: seq<string>, names: seq<string>)
    requires DistinctNames(names) && c !in "true" && Parsed(tokens).Ok?
    ensures Count(c, Parsed(tokens).value.command) + Held(c, Parsed(tokens).value.args, names) <= CountAll(c, tokens)
  {
    hide Held, Count, Flags;
    var remaining := StripPrefix(tokens);
    var n := Positionals(remaining);
    CountAllDrop(c, tokens, |tokens| - |remaining|);
    CountAllDrop(c, remaining, n);
    FlagsHold(c, remaining[n..], map[], names);
    HeldNothing(c, names);
    assert remaining[..n][0] == remaining[0];
  }
}
