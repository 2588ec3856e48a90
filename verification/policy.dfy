/** Access policies: rules with glob patterns, where any matching denial overrides. */
module Policy {
  import opened Wrappers
  import opened Utf8

  // ---- glob patterns -------------------------------------------------------------------

  const STAR := 42
  const DOT := 46

  function LowerByte(b: Byte): Byte {
    if 65 <= b <= 90 then b + 32 else b
  }

  function LowerBytes(s: Bytes): (t: Bytes)
    ensures |t| == |s|
  {
    seq(|s|, i requires 0 <= i < |s| => LowerByte(s[i]))
  }

  predicate GlobMatchesRecursive(pattern: Bytes, value: Bytes)
    decreases |pattern| + |value|
  {
    if pattern == [] then value == []
    else if pattern[0] == STAR then
      || GlobMatchesRecursive(pattern[1..], value)
      || (value != [] && value[0] != DOT && GlobMatchesRecursive(pattern, value[1..]))
    else
      value != [] && LowerByte(pattern[0]) == LowerByte(value[0]) && GlobMatchesRecursive(pattern[1..], value[1..])
  }

  const MAX_GLOB_LENGTH := 256

  predicate GlobMatches(pattern: string, value: string) {
    var p, v := Encode(pattern), Encode(value);
    || pattern == "*"
    || (|p| + |v| <= MAX_GLOB_LENGTH && GlobMatchesRecursive(LowerBytes(p), LowerBytes(v)))
  }

  // ---- what a pattern means --------------------------------------------------------------

  function Stars(pattern: Bytes): nat {
    if pattern == [] then 0 else (if pattern[0] == '*' as int then 1 else 0) + Stars(pattern[1..])
  }

  /** The pattern with a word for every star. */
  function Expand(pattern: Bytes, words: seq<Bytes>): Bytes
    requires |words| == Stars(pattern)
  {
    if pattern == [] then []
    else if pattern[0] == '*' as int then words[0] + Expand(pattern[1..], words[1..])
    else [pattern[0]] + Expand(pattern[1..], words)
  }

  predicate DotFree(words: seq<Bytes>) {
    forall i :: 0 <= i < |words| ==> '.' as int !in words[i]
  }

  /** The words turn the pattern into the value, ignoring ASCII case. */
  predicate Fills(pattern: Bytes, words: seq<Bytes>, value: Bytes) {
    |words| == Stars(pattern) && DotFree(words) && LowerBytes(Expand(pattern, words)) == LowerBytes(value)
  }

  /** ASCII case is all that is ignored. */
  lemma SameIgnoringCase(a: Bytes, b: Bytes)
    ensures LowerBytes(a) == LowerBytes(b)
            <==> |a| == |b| && forall i :: 0 <= i < |a| ==>
                   || a[i] == b[i]
                   || ('A' as int <= a[i] <= 'Z' as int && b[i] == a[i] + 32)
                   || ('A' as int <= b[i] <= 'Z' as int && a[i] == b[i] + 32)
  {
    if LowerBytes(a) == LowerBytes(b) {
      assert forall i :: 0 <= i < |a| ==> LowerByte(a[i]) == LowerBytes(a)[i] == LowerBytes(b)[i] == LowerByte(b[i]);
    }
  }

  lemma LowerCons(b: Byte, s: Bytes)
    ensures LowerBytes([b] + s) == [LowerByte(b)] + LowerBytes(s)
  {
  }

  lemma LowerSplit(s: Bytes)
    requires s != []
    ensures LowerBytes(s) == [LowerByte(s[0])] + LowerBytes(s[1..])
  {
  }

  lemma HeadsEqual<T>(a: T, s: seq<T>, b: T, t: seq<T>)
    ensures [a] + s == [b] + t <==> a == b && s == t
  {
    if [a] + s == [b] + t {
      assert ([a] + s)[0] == a && ([b] + t)[0] == b;
      assert ([a] + s)[1..] == s && ([b] + t)[1..] == t;
    }
  }

  /** A match yields words for the stars. */
  lemma {:induction false} MatchIsFilled(pattern: Bytes, value: Bytes) returns (words: seq<Bytes>)
    requires GlobMatchesRecursive(pattern, value)
    ensures Fills(pattern, words, value)
    decreases |pattern| + |value|
  {
    if pattern == [] {
      words := [];
    } else if pattern[0] == STAR {
      if GlobMatchesRecursive(pattern[1..], value) {
        var rest := MatchIsFilled(pattern[1..], value);
        words := [[]] + rest;
        assert words[1..] == rest;
        assert [] + Expand(pattern[1..], rest) == Expand(pattern[1..], rest);
      } else {
        var rest := MatchIsFilled(pattern, value[1..]);
        words := LongerWord(pattern, rest, value);
      }
    } else {
      words := MatchIsFilled(pattern[1..], value[1..]);
      LowerSplit(value);
      LowerCons(pattern[0], Expand(pattern[1..], words));
    }
  }

  /** One more character of the value goes to the first word. */
  lemma LongerWord(pattern: Bytes, rest: seq<Bytes>, value: Bytes) returns (words: seq<Bytes>)
    requires pattern != [] && pattern[0] == STAR && value != [] && value[0] != DOT
    requires Fills(pattern, rest, value[1..])
    ensures Fills(pattern, words, value)
  {
    words := [[value[0]] + rest[0]] + rest[1..];
    var tail := Expand(pattern[1..], rest[1..]);
    assert words[1..] == rest[1..];
    assert [value[0]] + rest[0] + tail == [value[0]] + (rest[0] + tail);
    LowerCons(value[0], rest[0] + tail);
    LowerSplit(value);
    assert forall i :: 1 <= i < |words| ==> words[i] == rest[i];
  }

  /** Words for the stars yield a match. */
  lemma {:induction false} FilledIsMatch(pattern: Bytes, words: seq<Bytes>, value: Bytes)
    requires Fills(pattern, words, value)
    ensures GlobMatchesRecursive(pattern, value)
    decreases |pattern| + |value|
  {
    if pattern == [] {
    } else if pattern[0] == STAR {
      var tail := Expand(pattern[1..], words[1..]);
      if words[0] == [] {
        assert [] + tail == tail;
        FilledIsMatch(pattern[1..], words[1..], value);
      } else {
        ShorterWord(pattern, words, value);
        FilledIsMatch(pattern, [words[0][1..]] + words[1..], value[1..]);
      }
    } else {
      LowerCons(pattern[0], Expand(pattern[1..], words));
      assert value != [];
      LowerSplit(value);
      HeadsEqual(LowerByte(pattern[0]), LowerBytes(Expand(pattern[1..], words)),
                 LowerByte(value[0]), LowerBytes(value[1..]));
      FilledIsMatch(pattern[1..], words, value[1..]);
    }
  }

  lemma ShorterWord(pattern: Bytes, words: seq<Bytes>, value: Bytes)
    requires pattern != [] && pattern[0] == STAR && Fills(pattern, words, value) && words[0] != []
    ensures value != [] && value[0] != DOT && Fills(pattern, [words[0][1..]] + words[1..], value[1..])
  {
    var w := words[0];
    var shorter := [w[1..]] + words[1..];
    var tail := Expand(pattern[1..], words[1..]);
    assert w + tail == [w[0]] + (w[1..] + tail);
    LowerCons(w[0], w[1..] + tail);
    assert value != [] && w[0] in w;
    LowerSplit(value);
    HeadsEqual(LowerByte(w[0]), LowerBytes(w[1..] + tail), LowerByte(value[0]), LowerBytes(value[1..]));
    assert shorter[1..] == words[1..];
    assert forall i :: 1 <= i < |shorter| ==> shorter[i] == words[i];
  }

  lemma {:induction false} LowerPattern(pattern: Bytes, words: seq<Bytes>)
    ensures Stars(LowerBytes(pattern)) == Stars(pattern)
    ensures |words| == Stars(pattern) ==>
              LowerBytes(Expand(LowerBytes(pattern), words)) == LowerBytes(Expand(pattern, words))
    decreases |pattern|
  {
    if pattern == [] {
    } else {
      var lower := LowerBytes(pattern);
      assert lower[1..] == LowerBytes(pattern[1..]);
      LowerPattern(pattern[1..], words);
      if |words| == Stars(pattern) {
        if pattern[0] == STAR {
          LowerPattern(pattern[1..], words[1..]);
          LowerAppend(words[0], Expand(lower[1..], words[1..]));
          LowerAppend(words[0], Expand(pattern[1..], words[1..]));
        } else {
          LowerCons(lower[0], Expand(lower[1..], words));
          LowerCons(pattern[0], Expand(pattern[1..], words));
        }
      }
    }
  }

  lemma LowerAppend(a: Bytes, b: Bytes)
    ensures LowerBytes(a + b) == LowerBytes(a) + LowerBytes(b)
  {
  }

  /**
   * A pattern matches exactly the values that dot-free words for its stars make of it, ignoring ASCII
   * case; but a lone star matches everything, and nothing else matches above the length limit.
   */
  lemma GlobMeaning(pattern: string, value: string)
    ensures GlobMatches(pattern, value)
            <==> || pattern == "*"
                 || (|Encode(pattern)| + |Encode(value)| <= 256
                     && exists words :: Fills(Encode(pattern), words, Encode(value)))
  {
    var p, v := Encode(pattern), Encode(value);
    assert LowerBytes(LowerBytes(v)) == LowerBytes(v);
    if GlobMatchesRecursive(LowerBytes(p), LowerBytes(v)) {
      var words := MatchIsFilled(LowerBytes(p), LowerBytes(v));
      LowerPattern(p, words);
      assert Fills(p, words, v);
    }
    if words :| Fills(p, words, v) {
      LowerPattern(p, words);
      FilledIsMatch(LowerBytes(p), words, LowerBytes(v));
    }
  }

  function Dots(s: Bytes): nat {
    if s == [] then 0 else (if s[0] == DOT then 1 else 0) + Dots(s[1..])
  }

  /** A star never stands for a dot. */
  lemma {:induction false} MatchKeepsDots(pattern: Bytes, value: Bytes)
    requires GlobMatchesRecursive(pattern, value)
    ensures Dots(pattern) == Dots(value)
    decreases |pattern| + |value|
  {
    if pattern == [] {
    } else {
      if pattern[0] == STAR {
        if GlobMatchesRecursive(pattern[1..], value) {
          MatchKeepsDots(pattern[1..], value);
        } else {
          MatchKeepsDots(pattern, value[1..]);
        }
      } else {
        MatchKeepsDots(pattern[1..], value[1..]);
      }
    }
  }

  // ---- rules ---------------------------------------------------------------------------------

  datatype Mode = Read | Write

  datatype Effect = Allow | Deny

  datatype PolicyRule = PolicyRule(
    subjects: seq<string>, tools: seq<string>, modes: Option<seq<Mode>>, effect: Effect)

  predicate MatchesAny(patterns: seq<string>, value: string) {
    exists i :: 0 <= i < |patterns| && GlobMatches(patterns[i], value)
  }

  /** The rule speaks about this subject, tool and mode. */
  predicate Applies(rule: PolicyRule, subject: string, tool: string, mode: Mode) {
    && MatchesAny(rule.subjects, subject)
    && MatchesAny(rule.tools, tool)
    && (rule.modes.Some? ==> mode in rule.modes.value)
  }

  /** Some rule allows, and none denies. */
  predicate Permitted(rules: seq<PolicyRule>, subject: string, tool: string, mode: Mode) {
    && (exists i :: 0 <= i < |rules| && Applies(rules[i], subject, tool, mode) && rules[i].effect == Allow)
    && (forall i :: 0 <= i < |rules| && Applies(rules[i], subject, tool, mode) ==> rules[i].effect == Allow)
  }

  lemma AppliesMeans(r: PolicyRule, subject: string, tool: string, mode: Mode)
    ensures Applies(r, subject, tool, mode)
            <==> && (exists p :: p in r.subjects && GlobMatches(p, subject))
                 && (exists p :: p in r.tools && GlobMatches(p, tool))
                 && (r.modes == None || mode in r.modes.value)
  {
    hide MatchesAny, GlobMatches;
    MatchesMeans(r.subjects, subject);
    MatchesMeans(r.tools, tool);
  }

  lemma MatchesMeans(patterns: seq<string>, value: string)
    ensures MatchesAny(patterns, value) <==> exists p :: p in patterns && GlobMatches(p, value)
  {
    hide GlobMatches;
    if p :| p in patterns && GlobMatches(p, value) {
      var i :| 0 <= i < |patterns| && patterns[i] == p;
      assert GlobMatches(patterns[i], value);
    }
  }

  lemma PermittedMeans(rules: seq<PolicyRule>, subject: string, tool: string, mode: Mode)
    ensures Permitted(rules, subject, tool, mode)
            <==> && (exists r :: r in rules && r.effect == Allow
                       && (exists p :: p in r.subjects && GlobMatches(p, subject))
                       && (exists p :: p in r.tools && GlobMatches(p, tool))
                       && (r.modes == None || mode in r.modes.value))
                 && (forall r :: r in rules
                       && (exists p :: p in r.subjects && GlobMatches(p, subject))
                       && (exists p :: p in r.tools && GlobMatches(p, tool))
                       && (r.modes == None || mode in r.modes.value)
                       ==> r.effect == Allow)
  {
    hide Applies, GlobMatches, Permitted;
    PermittedByMembers(rules, subject, tool, mode);
    forall r ensures Applies(r, subject, tool, mode)
                     <==> && (exists p :: p in r.subjects && GlobMatches(p, subject))
                          && (exists p :: p in r.tools && GlobMatches(p, tool))
                          && (r.modes == None || mode in r.modes.value) {
      AppliesMeans(r, subject, tool, mode);
    }
  }

  method Evaluate(policies: seq<PolicyRule>, subject: string, toolKey: string, toolMode: Mode)
    returns (decision: Effect)
    ensures decision == Allow <==> Permitted(policies, subject, toolKey, toolMode)
    // Some rule about this subject, tool and mode allows, and every such rule does.
    ensures decision == Allow
            <==> && (exists r :: r in policies && r.effect == Allow
                       && (exists p :: p in r.subjects && GlobMatches(p, subject))
                       && (exists p :: p in r.tools && GlobMatches(p, toolKey))
                       && (r.modes == None || toolMode in r.modes.value))
                 && (forall r :: r in policies
                       && (exists p :: p in r.subjects && GlobMatches(p, subject))
                       && (exists p :: p in r.tools && GlobMatches(p, toolKey))
                       && (r.modes == None || toolMode in r.modes.value)
                       ==> r.effect == Allow)
  {
    hide MatchesAny, GlobMatches;
    var hasAllow := false;
    for i := 0 to |policies|
      invariant hasAllow
        <==> exists k :: 0 <= k < i && Applies(policies[k], subject, toolKey, toolMode) && policies[k].effect == Allow
      invariant forall k :: 0 <= k < i && Applies(policies[k], subject, toolKey, toolMode) ==>
                  policies[k].effect == Allow
    {
      var policy := policies[i];
      if !MatchesAny(policy.subjects, subject) {
        continue;
      }
      if !MatchesAny(policy.tools, toolKey) {
        continue;
      }
      if policy.modes.Some? {
        if toolMode !in policy.modes.value {
          continue;
        }
      }
      match policy.effect
      case Deny =>
        PermittedMeans(policies, subject, toolKey, toolMode);
        return Deny;
      case Allow => hasAllow := true;
    }
    PermittedMeans(policies, subject, toolKey, toolMode);
    return if hasAllow then Allow else Deny;
  }

  /** The decision depends on which rules there are, not on their order or repetition. */
  lemma OrderFree(rules: seq<PolicyRule>, others: seq<PolicyRule>, subject: string, tool: string, mode: Mode)
    requires forall r :: r in rules <==> r in others
    ensures Permitted(rules, subject, tool, mode) <==> Permitted(others, subject, tool, mode)
  {
    PermittedByMembers(rules, subject, tool, mode);
    PermittedByMembers(others, subject, tool, mode);
  }

  lemma PermittedByMembers(rules: seq<PolicyRule>, subject: string, tool: string, mode: Mode)
    ensures Permitted(rules, subject, tool, mode)
            <==> && (exists r :: r in rules && Applies(r, subject, tool, mode) && r.effect == Allow)
                 && (forall r :: r in rules && Applies(r, subject, tool, mode) ==> r.effect == Allow)
  {
    hide Applies;
    if r :| r in rules && Applies(r, subject, tool, mode) && r.effect == Allow {
      var i :| 0 <= i < |rules| && rules[i] == r;
      assert Applies(rules[i], subject, tool, mode);
    }
  }

  /** A rule more: a denial can only take away, an allowance takes nothing away. */
  lemma OneRuleMore(rules: seq<PolicyRule>, rule: PolicyRule, subject: string, tool: string, mode: Mode)
    ensures Permitted(rules + [rule], subject, tool, mode)
            <==> if !Applies(rule, subject, tool, mode) then Permitted(rules, subject, tool, mode)
                 else rule.effect == Allow
                      && forall r :: r in rules && Applies(r, subject, tool, mode) ==> r.effect == Allow
  {
    hide Applies;
    PermittedByMembers(rules + [rule], subject, tool, mode);
    PermittedByMembers(rules, subject, tool, mode);
  }
}
