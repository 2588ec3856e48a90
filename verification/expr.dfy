/** Function expressions in template strings: `name("literal")`, nested calls, and the `${...}` wrapper. */
module Expr {
  import opened Wrappers
  import opened Strings

  datatype Expr = Literal(text: string) | Call(name: string, arg: Expr)

  predicate IdentChar(c: char) {
    '0' <= c <= '9' || 'A' <= c <= 'Z' || 'a' <= c <= 'z' || c == '_'
  }

  predicate Identifier(name: string) {
    name != "" && forall i :: 0 <= i < |name| ==> IdentChar(name[i])
  }

  /** The text inside a `${...}` wrapper, or the text itself. */
  function Unwrap(s: string): (t: string)
    ensures |t| <= |s|
  {
    if StartsWith(s, "${") && EndsWith(s[2..], "}") then Trim(s[2..|s| - 1]) else s
  }

  function ParseExpr(input: string): Option<Expr>
    decreases |input|, 0
  {
    var s := Unwrap(Trim(input));
    match Find(s, "(")
    case None => None
    case Some(paren) =>
      var name := s[..paren];
      if !Identifier(name) || s[|s| - 1] != ')' then None
      else
        FindChar(s, '(');
        match ParseArg(Trim(s[paren + 1..|s| - 1]))
        case None => None
        case Some(arg) => Some(Call(name, arg))
  }

  function ParseArg(input: string): Option<Expr>
    decreases |input|, 1
  {
    var s := Trim(input);
    if s != "" && s[0] == '"' && s[|s| - 1] == '"' && |s| >= 2 then Some(Literal(s[1..|s| - 1]))
    else ParseExpr(s)
  }

  function Print(e: Expr): (s: string)
    ensures s != ""
  {
    match e
    case Literal(text) => "\"" + text + "\""
    case Call(name, arg) => name + "(" + Print(arg) + ")"
  }

  /** A name of ASCII letters, digits and underscores. */
  predicate Word(name: string) {
    name != "" && forall c :: c in name ==> c == '_' || 'a' <= c <= 'z' || 'A' <= c <= 'Z' || '0' <= c <= '9'
  }

  lemma IdentifierIsWord(name: string)
    ensures Identifier(name) <==> Word(name)
  {
    assert forall i :: 0 <= i < |name| ==> name[i] in name;
  }

  /** All function names are words. */
  predicate Named(e: Expr) {
    e.Call? ==> Word(e.name) && Named(e.arg)
  }

  // ---- the language that is accepted -------------------------------------------------------

  /** `u` is what `s` holds, without white space around it and without a wrapper. */
  predicate Holds(s: string, u: string) {
    var t := Trim(s);
    t == u || (|t| >= 3 && t == "${" + t[2..|t| - 1] + "}" && Trim(t[2..|t| - 1]) == u)
  }

  /** `u` is a call of `name` on what is written in `inner`. */
  predicate CallText(u: string, name: string, inner: string) {
    Word(name) && u == name + "(" + inner + ")"
  }

  /**
   * The grammar: `s` writes the expression `e`. A call may be wrapped and have white space around it and
   * around its argument; a literal is everything between its first and its last quote.
   */
  ghost predicate Writes(s: string, e: Expr)
    decreases e
  {
    match e
    case Literal(text) => Trim(s) == "\"" + text + "\""
    case Call(name, arg) => exists u, inner :: Holds(s, u) && CallText(u, name, inner) && Writes(inner, arg)
  }

  lemma TrimIdempotent(s: string)
    ensures Trim(Trim(s)) == Trim(s)
  {
    var t := TrimStart(s, IsWhitespace);
    var u := TrimEnd(t, IsWhitespace);
    TrimEndIsPrefix(t, IsWhitespace);
    if u != "" { assert u[0] == t[0]; }
    TrimNothing(u, IsWhitespace);
  }

  /** The parenthesis behind an identifier is the first one. */
  lemma {:induction false} CallSplits(u: string, name: string, inner: string)
    requires CallText(u, name, inner)
    ensures Find(u, "(") == Some(|name|) && u[..|name|] == name
    ensures u[|u| - 1] == ')' && u[|name| + 1..|u| - 1] == inner
    ensures u[0] != '$' && u[0] != '"'
  {
    hide Find;
    CallPieces(name, inner);
    FindFirst(name, '(', inner + ")");
    assert name[0] in name;
  }

  lemma CallPieces(name: string, inner: string)
    ensures var u := name + "(" + inner + ")";
            && u == name + ['('] + (inner + ")") && "(" == ['(']
            && u[..|name|] == name && u[|u| - 1] == ')' && u[|name| + 1..|u| - 1] == inner
            && (name != "" ==> u[0] == name[0])
  {
  }

  lemma Slices<T>(u: seq<T>, n: nat)
    requires n + 1 < |u|
    ensures u == u[..n] + [u[n]] + u[n + 1..|u| - 1] + [u[|u| - 1]]
  {
  }

  lemma {:induction false} ParenAt(u: string, paren: nat)
    requires Find(u, "(") == Some(paren) && u[|u| - 1] == ')'
    ensures paren + 1 < |u| && u[paren] == '('
  {
    hide Find;
    assert "(" == ['('];
    FindChar(u, '(');
  }

  lemma {:induction false} CallIsText(u: string, paren: nat)
    requires Find(u, "(") == Some(paren) && Identifier(u[..paren]) && u[|u| - 1] == ')'
    ensures paren + 1 <= |u| - 1
    ensures CallText(u, u[..paren], u[paren + 1..|u| - 1])
  {
    hide Identifier, Word, Find;
    IdentifierIsWord(u[..paren]);
    ParenAt(u, paren);
    Slices(u, paren);
    assert [u[paren]] == "(" && [u[|u| - 1]] == ")";
  }

  lemma WrapperText(s: string)
    ensures StartsWith(s, "${") && EndsWith(s[2..], "}") <==> |s| >= 3 && s == "${" + s[2..|s| - 1] + "}"
  {
    if |s| >= 3 {
      assert s[2..][|s| - 3..] == [s[|s| - 1]];
      assert s == s[..2] + s[2..|s| - 1] + [s[|s| - 1]];
    }
  }

  /** What a parse looks at is held by the input, and nothing else that is a call is. */
  lemma {:induction false} HeldIsUnwrapped(s: string, u: string)
    ensures Holds(s, Unwrap(Trim(s)))
    ensures Holds(s, u) && u != "" && u[0] != '$' ==> u == Unwrap(Trim(s))
  {
    WrapperText(Trim(s));
  }

  /** Parsing a call: parsing what is between the parentheses. */
  lemma {:induction false} ParseCall(s: string, name: string, inner: string)
    requires CallText(Unwrap(Trim(s)), name, inner)
    ensures ParseExpr(s)
            == match ParseArg(Trim(inner)) case None => None case Some(arg) => Some(Call(name, arg))
  {
    hide Trim, Unwrap, ParseArg, Identifier;
    CallSplits(Unwrap(Trim(s)), name, inner);
    IdentifierIsWord(name);
  }

  lemma {:induction false} ParsedIsCall(s: string, e: Expr) returns (inner: string)
    requires ParseExpr(s) == Some(e)
    ensures e.Call? && CallText(Unwrap(Trim(s)), e.name, inner) && ParseArg(Trim(inner)) == Some(e.arg)
  {
    hide Trim, Unwrap, Identifier, CallText;
    var u := Unwrap(Trim(s));
    var paren := Find(u, "(").value;
    CallIsText(u, paren);
    inner := u[paren + 1..|u| - 1];
  }

  /** The parser accepts exactly the grammar. */
  lemma {:induction false} ParsesWhatIsWritten(s: string, e: Expr)
    requires e.Call?
    ensures ParseExpr(s) == Some(e) <==> Writes(s, e)
    decreases e, 0
  {
    hide Trim, Unwrap, Identifier, CallText, Holds, ParseExpr, ParseArg;
    var u := Unwrap(Trim(s));
    HeldIsUnwrapped(s, u);
    if ParseExpr(s) == Some(e) {
      var inner := ParsedIsCall(s, e);
      ArgIsWritten(Trim(inner), e.arg);
      WritesTrimmed(inner, e.arg);
    }
    if Writes(s, e) {
      var v, inner :| Holds(s, v) && CallText(v, e.name, inner) && Writes(inner, e.arg);
      CallSplits(v, e.name, inner);
      HeldIsUnwrapped(s, v);
      WritesTrimmed(inner, e.arg);
      ArgIsWritten(Trim(inner), e.arg);
      ParseCall(s, e.name, inner);
    }
  }

  lemma WritesTrimmed(s: string, e: Expr)
    ensures Writes(Trim(s), e) <==> Writes(s, e)
  {
    hide Trim, CallText;
    TrimIdempotent(s);
    if e.Call? {
      forall u ensures Holds(Trim(s), u) <==> Holds(s, u) {}
      hide Holds;
      assert forall u, inner ::
        (Holds(Trim(s), u) && CallText(u, e.name, inner) && Writes(inner, e.arg))
        <==> (Holds(s, u) && CallText(u, e.name, inner) && Writes(inner, e.arg));
    }
  }

  lemma {:induction false} ArgIsWritten(s: string, e: Expr)
    ensures ParseArg(s) == Some(e) <==> Writes(s, e)
    decreases e, 1
  {
    hide Trim, ParseExpr;
    var t := Trim(s);
    TrimIdempotent(s);
    WritesTrimmed(s, e);
    ExprIsCall(t);
    match e
    case Literal(text) => QuotedText(t, text);
    case Call(name, _) =>
      hide Writes;
      ParsesWhatIsWritten(t, e);
      if Writes(t, e) { WrittenCallUnquoted(t, e); }
  }

  lemma QuotedText(t: string, text: string)
    ensures t == "\"" + text + "\"" <==> |t| >= 2 && t[0] == '"' && t[|t| - 1] == '"' && t[1..|t| - 1] == text
  {
    if |t| >= 2 { assert t == [t[0]] + t[1..|t| - 1] + [t[|t| - 1]]; }
  }

  lemma ExprIsCall(s: string)
    ensures ParseExpr(s).Some? ==> ParseExpr(s).value.Call?
  {
  }

  lemma HeldStart(t: string, u: string)
    requires Holds(t, u) && Trim(t) == t && u != "" && u[0] != '"'
    ensures t != "" && t[0] != '"'
  {
    hide Trim;
  }

  lemma WrittenCallUnquoted(t: string, e: Expr)
    requires e.Call? && Writes(t, e) && Trim(t) == t
    ensures t != "" && t[0] != '"'
  {
    hide Trim, Holds, CallText, Identifier;
    var u, inner :| Holds(t, u) && CallText(u, e.name, inner) && Writes(inner, e.arg);
    CallSplits(u, e.name, inner);
    HeldStart(t, u);
  }

  // ---- printing ------------------------------------------------------------------------------

  /** Printed text has no white space at its ends. */
  lemma PrintEnds(e: Expr)
    requires Named(e)
    ensures !IsWhitespace(Print(e)[0]) && !IsWhitespace(Print(e)[|Print(e)| - 1])
    ensures e.Call? ==> Print(e)[0] != '"' && Print(e)[0] != '$'
    ensures Trim(Print(e)) == Print(e)
  {
    if e.Call? { assert e.name[0] in e.name && Print(e)[0] == e.name[0]; }
    TrimNothing(Print(e), IsWhitespace);
  }

  lemma {:induction false} PrintWrites(e: Expr)
    requires Named(e)
    ensures Writes(Print(e), e)
    decreases e
  {
    hide Trim, Identifier;
    PrintEnds(e);
    if e.Call? {
      PrintWrites(e.arg);
      assert Holds(Print(e), Print(e)) && CallText(Print(e), e.name, Print(e.arg));
    }
  }

  /** A printed call is parsed back, bare or wrapped, with any white space around it. */
  lemma {:induction false} ParseUndoesPrint(e: Expr, before: string, after: string)
    requires e.Call? && Named(e)
    requires forall c :: c in before || c in after ==> IsWhitespace(c)
    ensures ParseExpr(before + Print(e) + after) == Some(e)
    ensures ParseExpr("${" + (before + Print(e) + after) + "}") == Some(e)
  {
    hide Trim, TrimBy, Identifier, ParseExpr, Holds, IsWhitespace;
    var p := Print(e);
    var s := before + p + after;
    PrintEnds(e);
    PrintWrites(e.arg);
    HeldInside(before, p, after);
    assert CallText(p, e.name, Print(e.arg));
    ParsesWhatIsWritten(s, e);
    ParsesWhatIsWritten("${" + s + "}", e);
  }

  lemma {:induction false} HeldInside(before: string, p: string, after: string)
    requires p != "" && !IsWhitespace(p[0]) && !IsWhitespace(p[|p| - 1])
    requires forall c :: c in before || c in after ==> IsWhitespace(c)
    ensures Holds(before + p + after, p) && Holds("${" + (before + p + after) + "}", p)
  {
    hide TrimBy;
    var s := before + p + after;
    var wrapped := "${" + s + "}";
    TrimAround(before, p, after, IsWhitespace);
    TrimNothing(wrapped, IsWhitespace);
    assert wrapped[2..|wrapped| - 1] == s;
  }

  lemma {:induction false} WrittenIsNamed(s: string, e: Expr)
    requires Writes(s, e)
    ensures Named(e)
    decreases e
  {
    if e.Call? {
      var u, inner :| Holds(s, u) && CallText(u, e.name, inner) && Writes(inner, e.arg);
      WrittenIsNamed(inner, e.arg);
    }
  }

  /** Whatever is accepted is accepted again, as the same expression, when it is printed. */
  lemma {:induction false} AcceptedReparses(s: string, e: Expr)
    requires ParseExpr(s) == Some(e)
    ensures ParseExpr(Print(e)) == Some(e)
  {
    hide ParseExpr, Writes, Named, Print;
    ExprIsCall(s);
    ParsesWhatIsWritten(s, e);
    WrittenIsNamed(s, e);
    ParseUndoesPrint(e, "", "");
    assert "" + Print(e) + "" == Print(e);
  }
}
