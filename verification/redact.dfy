/** Removing secrets, and their usual encodings, from text and JSON. */
module Redact {
  import opened Wrappers
  import opened Strings
  import opened Utf8
  import opened Sorting
  import opened Json

  // ---- the encodings -------------------------------------------------------------

  /** Base 64 digits (RFC 4648, sections 4 and 5). */
  function Base64Digit(v: int, urlSafe: bool): char
    requires 0 <= v < 64
  {
    if v < 26 then ('A' as int + v) as char
    else if v < 52 then ('a' as int + v - 26) as char
    else if v < 62 then ('0' as int + v - 52) as char
    else if v == 62 then (if urlSafe then '-' else '+')
    else if urlSafe then '_' else '/'
  }

  /** Up to three bytes as four digits, padded. */
  function Base64Group(b: Bytes, urlSafe: bool): (c: string)
    requires 0 < |b| <= 3
    ensures |c| == 4
  {
    var b1 := if |b| > 1 then b[1] else 0;
    var b2 := if |b| > 2 then b[2] else 0;
    [Base64Digit(b[0] / 4, urlSafe),
     Base64Digit(b[0] % 4 * 16 + b1 / 16, urlSafe),
     if |b| > 1 then Base64Digit(b1 % 16 * 4 + b2 / 64, urlSafe) else '=',
     if |b| > 2 then Base64Digit(b2 % 64, urlSafe) else '=']
  }

  /** Padded Base 64. */
  function Base64(b: Bytes, urlSafe: bool): string {
    if b == [] then ""
    else if |b| <= 3 then Base64Group(b, urlSafe)
    else Base64Group(b[..3], urlSafe) + Base64(b[3..], urlSafe)
  }

  function HexDigit(v: int, upper: bool): char
    requires 0 <= v < 16
  {
    if v < 10 then ('0' as int + v) as char
    else if upper then ('A' as int + v - 10) as char
    else ('a' as int + v - 10) as char
  }

  function Hex(b: Bytes, upper: bool): string {
    if b == [] then ""
    else Hex(b[..|b| - 1], upper)
         + [HexDigit(b[|b| - 1] / 16, upper), HexDigit(b[|b| - 1] % 16, upper)]
  }

  /** Two digits for each byte, the high one first. */
  lemma {:induction false} HexDigits(b: Bytes, upper: bool)
    ensures var digits := if upper then "0123456789ABCDEF" else "0123456789abcdef";
            && |Hex(b, upper)| == 2 * |b|
            && forall i :: 0 <= i < |b| ==>
                 Hex(b, upper)[2 * i] == digits[b[i] / 16] && Hex(b, upper)[2 * i + 1] == digits[b[i] % 16]
  {
    hide HexDigit;
    if b == [] {
    } else {
      var n := |b| - 1;
      HexDigits(b[..n], upper);
      HexDigitIs(b[n] / 16, upper);
      HexDigitIs(b[n] % 16, upper);
    }
  }

  lemma HexDigitIs(v: int, upper: bool)
    requires 0 <= v < 16
    ensures HexDigit(v, upper) == (if upper then "0123456789ABCDEF" else "0123456789abcdef")[v]
  {
  }

  method HexEncode(bytes: Bytes, upper: bool) returns (out: string)
    ensures out == Hex(bytes, upper)
    ensures var digits := if upper then "0123456789ABCDEF" else "0123456789abcdef";
            && |out| == 2 * |bytes|
            && forall i :: 0 <= i < |bytes| ==>
                 out[2 * i] == digits[bytes[i] / 16] && out[2 * i + 1] == digits[bytes[i] % 16]
  {
    out := "";
    HexDigits(bytes, upper);
    for i := 0 to |bytes|
      invariant out == Hex(bytes[..i], upper)
    {
      var b := bytes[i];
      assert bytes[..i + 1][..i] == bytes[..i];
      out := out + [HexDigit(b / 16, upper), HexDigit(b % 16, upper)];
    }
    assert bytes[..|bytes|] == bytes;
  }

  predicate FormPlain(b: Byte) {
    || '0' as int <= b <= '9' as int || 'A' as int <= b <= 'Z' as int || 'a' as int <= b <= 'z' as int
    || b == '*' as int || b == '-' as int || b == '.' as int || b == '_' as int
  }

  /** `form_urlencoded::byte_serialize`. */
  function FormEncode(b: Bytes): string {
    if b == [] then ""
    else (if FormPlain(b[0]) then [b[0] as char]
          else if b[0] == ' ' as int then "+"
          else ['%', HexDigit(b[0] / 16, true), HexDigit(b[0] % 16, true)])
         + FormEncode(b[1..])
  }

  /** The forms in which one secret is looked for. */
  function VariantsOf(secret: string): set<string> {
    if secret == "" then {}
    else
      var bytes := Encode(secret);
      {secret}
      + if |bytes| < 6 then {}
        else
          {Base64(bytes, false), Base64(bytes, true), Hex(bytes, false), Hex(bytes, true)}
          + if FormEncode(bytes) == "" then {} else {FormEncode(bytes)}
  }

  ghost function Variants(secrets: set<string>): set<string> {
    set s, v | s in secrets && v in VariantsOf(s) :: v
  }

  // ---- the redactor ------------------------------------------------------------------

  /** Longer variants first, equally long ones in byte order. */
  predicate Before(a: string, b: string) {
    var x, y := Encode(a), Encode(b);
    |x| > |y| || (|x| == |y| && LexLess(x, y))
  }

  lemma BeforeIsStrictTotal()
    ensures StrictTotal(Before)
  {
    forall a ensures !Before(a, a) { LexIrreflexive(Encode(a)); }
    forall a, b ensures a == b || Before(a, b) || Before(b, a) {
      LexTrichotomy(Encode(a), Encode(b));
      if Encode(a) == Encode(b) { EncodeInjective(a, b); }
    }
    forall a, b, c | Before(a, b) && Before(b, c) ensures Before(a, c) {
      if |Encode(a)| == |Encode(b)| == |Encode(c)| { LexTransitive(Encode(a), Encode(b), Encode(c)); }
    }
  }

  const MARK := "[REDACTED]"

  /** `str::replace`: every occurrence of `p`, from the left and without overlaps. */
  function Replace(s: string, p: string, r: string): string
    requires p != ""
  {
    match Find(s, p)
    case None => s
    case Some(i) => s[..i] + r + Replace(s[i + |p|..], p, r)
  }

  predicate NonEmpty(variants: seq<string>) {
    forall i :: 0 <= i < |variants| ==> variants[i] != ""
  }

  function RedactAll(variants: seq<string>, input: string): string
    requires NonEmpty(variants)
  {
    if variants == [] then input
    else RedactAll(variants[1..], Replace(input, variants[0], MARK))
  }

  datatype Redactor = Redactor(secrets: seq<string>) {
    /** The redactor for a set of secrets. */
    ghost predicate For(secrets: set<string>) {
      SortedListOf(Before, this.secrets, Variants(secrets))
    }

    predicate Valid() { NonEmpty(secrets) }

    static method New(secrets: seq<string>) returns (r: Redactor)
      ensures r.For(set s | s in secrets) && r.Valid()
    {
      hide VariantsOf, Variants;
      var variants: set<string> := {};
      for i := 0 to |secrets|
        invariant forall v :: v in variants <==> exists k :: 0 <= k < i && v in VariantsOf(secrets[k])
      {
        if secrets[i] == "" {
          NothingFor(secrets[i]);
          continue;
        }
        variants := variants + VariantsOf(secrets[i]);
      }
      BeforeIsStrictTotal();
      var ordered := Sort(Before, variants);
      r := Redactor(ordered);
      AllVariants(secrets, variants);
      forall i | 0 <= i < |ordered| ensures ordered[i] != "" { assert ordered[i] in ordered; }
    }

    method Redact(input: string) returns (out: string)
      requires Valid()
      ensures out == RedactAll(secrets, input)
    {
      out := input;
      for i := 0 to |secrets|
        invariant RedactAll(secrets[i..], out) == RedactAll(secrets, input)
      {
        assert secrets[i..][1..] == secrets[i + 1..];
        out := Replace(out, secrets[i], MARK);
      }
    }

    /** Redacts every string of a JSON value; object keys are kept. */
    function RedactJson(value: Json): Json
      requires Valid()
    {
      match value
      case Null => Null
      case Bool(v) => Bool(v)
      case Number(v) => Number(v)
      case String(v) => String(RedactAll(secrets, v))
      case Array(values) => Array(seq(|values|, i requires 0 <= i < |values| => RedactJson(values[i])))
      case Object(fields) => Object(map k | k in fields :: RedactJson(fields[k]))
    }
  }

  lemma NothingFor(s: string)
    requires s == ""
    ensures VariantsOf(s) == {}
  {
  }

  lemma AllVariants(secrets: seq<string>, variants: set<string>)
    requires forall v :: v in variants <==> exists k :: 0 <= k < |secrets| && v in VariantsOf(secrets[k])
    ensures variants == Variants(set s | s in secrets) && "" !in variants
  {
    hide VariantsOf;
    var all := set s | s in secrets;
    forall v ensures v in variants <==> v in Variants(all) {
      if k :| 0 <= k < |secrets| && v in VariantsOf(secrets[k]) { assert secrets[k] in all; }
      if s :| s in all && v in VariantsOf(s) {
        var k :| 0 <= k < |secrets| && secrets[k] == s;
        assert v in VariantsOf(secrets[k]);
      }
    }
    forall s ensures "" !in VariantsOf(s) { VariantsNonEmpty(s); }
  }

  lemma VariantsNonEmpty(s: string)
    ensures "" !in VariantsOf(s)
  {
  }

  /** The redactor depends neither on the order nor on repetitions of the secrets. */
  lemma RedactorDeterminedBySecrets(r1: Redactor, r2: Redactor, secrets: set<string>)
    requires r1.For(secrets) && r2.For(secrets)
    ensures r1 == r2
  {
    BeforeIsStrictTotal();
    SortedListUnique(Before, r1.secrets, r2.secrets, Variants(secrets));
  }

  /**
   Replacing keeps what stands between the occurrences, and nothing of them. The occurrences are the
   leftmost ones: none begins earlier behind the one before it.
   */
  lemma {:induction false} ReplaceKeepsRest(s: string, p: string, r: string) returns (parts: seq<string>)
    requires p != ""
    ensures parts != [] && forall i :: 0 <= i < |parts| ==> !Occurs(p, parts[i])
    ensures forall i, j :: 0 <= i < |parts| - 1 && At(parts[i] + p, p, j) ==> j == |parts[i]|
    ensures Join(parts, p) == s && Join(parts, r) == Replace(s, p, r)
    decreases |s|
  {
    hide Join, Find;
    FindSpec(s, p);
    match Find(s, p)
    case None =>
      parts := [s];
      JoinOne(s, p);
      JoinOne(s, r);
    case Some(i) =>
      var front, tail := s[..i], s[i + |p|..];
      var rest := ReplaceKeepsRest(tail, p, r);
      parts := [front] + rest;
      forall j ensures !At(front, p, j) { AtTake(s, i, p, j); }
      JoinCons(front, rest, p);
      JoinCons(front, rest, r);
      FoundHere(s, p, i);
      forall j | At(front + p, p, j) ensures j == |front| { AtAppend(front + p, tail, p, j); }
  }

  lemma JoinOne(part: string, sep: string)
    ensures Join([part], sep) == part
  {
  }

  lemma JoinCons(part: string, rest: seq<string>, sep: string)
    requires rest != []
    ensures Join([part] + rest, sep) == part + sep + Join(rest, sep)
  {
    assert ([part] + rest)[1..] == rest;
  }

  lemma FoundHere(s: string, p: string, i: nat)
    requires At(s, p, i)
    ensures s == s[..i] + p + s[i + |p|..]
  {
  }

  // ---- later replacements do not bring earlier variants back ----------------------------

  /** No occurrence of `w` can overlap a mark, whatever stands around the mark. */
  ghost predicate Apart(w: string) {
    forall x: string, y: string, i :: At(x + MARK + y, w, i) ==> i + |w| <= |x| || |x| + |MARK| <= i
  }

  predicate BracketFree(w: string) { '[' !in w && ']' !in w }

  lemma AtChar(s: string, w: string, i: int, k: int)
    requires At(s, w, i) && 0 <= k < |w|
    ensures s[i + k] == w[k]
  {
    assert s[i..i + |w|][k] == s[i + k];
  }

  lemma InsideMark(x: string, y: string, w: string, i: int)
    requires At(x + MARK + y, w, i) && |x| < i && i + |w| <= |x| + 9
    ensures Occurs(w, "REDACTED")
  {
    var s, n := x + MARK + y, |x|;
    assert s[n + 1..n + 9] == "REDACTED";
    assert s[i..i + |w|] == "REDACTED"[i - n - 1..i - n - 1 + |w|];
    assert At("REDACTED", w, i - n - 1);
  }

  /** Text without brackets that is no part of the word inside the mark stays apart from marks. */
  lemma BracketFreeIsApart(w: string)
    requires w != "" && BracketFree(w) && !Occurs(w, "REDACTED")
    ensures Apart(w)
  {
    forall x: string, y: string, i | At(x + MARK + y, w, i)
      ensures i + |w| <= |x| || |x| + |MARK| <= i
    {
      var s := x + MARK + y;
      var n := |x|;
      assert s[n] == '[' && s[n + 9] == ']';
      if i <= n < i + |w| {
        AtChar(s, w, i, n - i);
      } else if i <= n + 9 < i + |w| {
        AtChar(s, w, i, n + 9 - i);
      } else if n < i && i + |w| <= n + 9 {
        InsideMark(x, y, w, i);
      }
    }
  }

  /** A variant is gone once it is replaced, and a variant that is absent stays absent. */
  lemma {:induction false} ReplaceKeepsAbsent(s: string, v: string, w: string)
    requires v != "" && w != "" && Apart(w)
    requires w == v || !Occurs(w, s)
    ensures !Occurs(w, Replace(s, v, MARK))
    decreases |s|
  {
    FindSpec(s, v);
    match Find(s, v)
    case None =>
    case Some(i) =>
      var x, rest := s[..i], s[i + |v|..];
      var y := Replace(rest, v, MARK);
      if w != v {
        forall k ensures !At(rest, w, k) { if 0 <= k { AtDrop(s, i + |v|, w, k); } }
      }
      ReplaceKeepsAbsent(rest, v, w);
      forall k ensures !At(x + MARK + y, w, k) {
        NoOccurrence(s, v, w, i, y, k);
      }
  }

  /** The place of an occurrence: in front of the mark, or behind it. */
  lemma NoOccurrence(s: string, v: string, w: string, i: nat, y: string, k: int)
    requires w != "" && Apart(w) && i <= |s|
    requires if w == v then (forall j :: 0 <= j < i ==> !At(s, v, j)) else !Occurs(w, s)
    requires !Occurs(w, y)
    ensures !At(s[..i] + MARK + y, w, k)
  {
    var x := s[..i];
    if At(x + MARK + y, w, k) {
      if k + |w| <= i {
        Regroup(x, MARK, y);
        AtAppend(x, MARK + y, w, k);
        AtTake(s, i, w, k);
      } else {
        assert (x + MARK + y)[i + |MARK|..] == y;
        AtDrop(x + MARK + y, i + |MARK|, w, k - i - |MARK|);
      }
    }
  }

  lemma ReplaceAbsent(s: string, v: string, r: string)
    requires v != "" && !Occurs(v, s)
    ensures Replace(s, v, r) == s
  {
    FindSpec(s, v);
  }

  /** Variants absent from the start stay absent through all replacements. */
  lemma {:induction false} RedactKeepsAbsent(variants: seq<string>, s: string, w: string)
    requires NonEmpty(variants) && w != "" && Apart(w) && !Occurs(w, s)
    ensures !Occurs(w, RedactAll(variants, s))
    decreases |variants|
  {
    if variants == [] {
    } else {
      ReplaceKeepsAbsent(s, variants[0], w);
      RedactKeepsAbsent(variants[1..], Replace(s, variants[0], MARK), w);
    }
  }

  /** Redaction is complete: no variant that stays apart from marks occurs in the result. */
  lemma {:induction false} RedactComplete(variants: seq<string>, s: string, w: string)
    requires NonEmpty(variants) && w in variants && Apart(w)
    ensures !Occurs(w, RedactAll(variants, s))
    decreases |variants|
  {
    var next := Replace(s, variants[0], MARK);
    if w == variants[0] {
      ReplaceKeepsAbsent(s, w, w);
      RedactKeepsAbsent(variants[1..], next, w);
    } else {
      RedactComplete(variants[1..], next, w);
    }
  }

  /** A text in which no variant occurs is left as it is. */
  lemma {:induction false} RedactNothing(variants: seq<string>, s: string)
    requires NonEmpty(variants) && forall v :: v in variants ==> !Occurs(v, s)
    ensures RedactAll(variants, s) == s
  {
    if variants == [] {
    } else {
      assert variants[0] in variants;
      ReplaceAbsent(s, variants[0], MARK);
      RedactNothing(variants[1..], s);
    }
  }

  /** Redacting twice is redacting once. */
  lemma RedactIdempotent(variants: seq<string>, s: string)
    requires NonEmpty(variants) && forall v :: v in variants ==> Apart(v)
    ensures RedactAll(variants, RedactAll(variants, s)) == RedactAll(variants, s)
  {
    forall v | v in variants ensures !Occurs(v, RedactAll(variants, s)) {
      RedactComplete(variants, s, v);
    }
    RedactNothing(variants, RedactAll(variants, s));
  }

  // ---- exactly when redaction is complete -------------------------------------------------

  /** An earlier variant does not occur in a later one. */
  lemma EarlierNotInLater(w: string, u: string)
    requires Before(w, u)
    ensures !Occurs(w, u)
  {
    if i :| At(u, w, i) {
      var a, b := u[..i], u[i + |w|..];
      assert u == a + w + b;
      EncodeAppend(a + w, b);
      EncodeAppend(a, w);
      assert |Encode(a)| > 0 || a == "";
      assert |Encode(b)| > 0 || b == "";
      BeforeIsStrictTotal();
      if a == "" && b == "" { assert u == w; }
    }
  }

  lemma NotInMark(w: string)
    requires w != "" && Apart(w)
    ensures !Occurs(w, MARK)
  {
    assert "" + MARK + "" == MARK;
    forall i ensures !At(MARK, w, i) { assert At("" + MARK + "", w, i) <==> At(MARK, w, i); }
  }

  lemma {:induction false} SkipAbsent(first: seq<string>, later: seq<string>, s: string)
    requires NonEmpty(first + later) && forall v :: v in first ==> !Occurs(v, s)
    ensures NonEmpty(later) && RedactAll(first + later, s) == RedactAll(later, s)
  {
    if first == [] {
      assert first + later == later;
    } else {
      assert (first + later)[0] == first[0] && first[0] in first;
      assert (first + later)[1..] == first[1..] + later;
      ReplaceAbsent(s, first[0], MARK);
      SkipAbsent(first[1..], later, s);
    }
    assert forall i :: 0 <= i < |later| ==> later[i] == (first + later)[|first| + i];
  }

  lemma ReplaceSelf(u: string)
    requires u != ""
    ensures Replace(u, u, MARK) == MARK
  {
    FindIs(u, u, 0);
    assert u[..0] + MARK + u[|u|..] == MARK;
  }

  lemma MarkContains(u: string)
    requires Occurs(u, "REDACTED")
    ensures Occurs(u, MARK)
  {
    var i :| At("REDACTED", u, i);
    assert MARK[1..9] == "REDACTED";
    AtTake(MARK, 9, u, i + 1);
    AtDrop(MARK[..9], 1, u, i);
    assert At(MARK, u, i + 1);
  }

  /** A variant that is part of the word inside the mark: redacting it writes it again. */
  lemma MarkShowsVariant(first: seq<string>, u: string, later: seq<string>)
    requires NonEmpty(first + [u] + later) && Occurs(u, "REDACTED")
    requires forall v :: v in first ==> Before(v, u)
    requires forall v :: v in later ==> v != "" && Apart(v)
    ensures Occurs(u, RedactAll(first + [u] + later, u))
  {
    hide Before, Apart, At;
    var rest := [u] + later;
    assert first + [u] + later == first + rest;
    forall v | v in first ensures !Occurs(v, u) { EarlierNotInLater(v, u); }
    SkipAbsent(first, rest, u);
    ReplaceSelf(u);
    assert rest[0] == u && rest[1..] == later;
    forall v | v in later ensures !Occurs(v, MARK) { NotInMark(v); }
    RedactNothing(later, MARK);
    MarkContains(u);
  }

  /** The last variant that is part of the word inside the mark, and what stands around it. */
  lemma {:induction false} LastInMark(variants: seq<string>, j: nat)
    returns (first: seq<string>, u: string, later: seq<string>)
    requires j < |variants| && Occurs(variants[j], "REDACTED")
    ensures variants == first + [u] + later && Occurs(u, "REDACTED")
    ensures forall v :: v in later ==> !Occurs(v, "REDACTED")
    decreases |variants|
  {
    var n := |variants| - 1;
    if Occurs(variants[n], "REDACTED") {
      first, u, later := variants[..n], variants[n], [];
    } else {
      first, u, later := LastInMark(variants[..n], j);
      later := later + [variants[n]];
    }
  }

  lemma SortedAround(first: seq<string>, u: string, later: seq<string>)
    requires Sorted(Before, first + [u] + later) && NonEmpty(first + [u] + later)
    ensures forall v :: v in first ==> Before(v, u)
    ensures forall v :: v in later ==> v != ""
  {
    var all := first + [u] + later;
    forall v | v in first ensures Before(v, u) {
      var i :| 0 <= i < |first| && first[i] == v;
      assert all[i] == v && all[|first|] == u;
    }
    forall v | v in later ensures v != "" {
      var i :| 0 <= i < |later| && later[i] == v;
      assert all[|first| + 1 + i] == v;
    }
  }

  ghost predicate Harmless(v: string) { BracketFree(v) && !Occurs(v, "REDACTED") }

  /** No variant ever shows in a redacted text. */
  ghost predicate Complete(variants: seq<string>)
    requires NonEmpty(variants)
  {
    forall s: string, v: string :: v in variants ==> !Occurs(v, RedactAll(variants, s))
  }

  lemma CompleteMeans(variants: seq<string>, s: string, v: string)
    requires NonEmpty(variants) && Complete(variants) && v in variants
    ensures !Occurs(v, RedactAll(variants, s))
  {
  }

  lemma CompleteWhenHarmless(variants: seq<string>)
    requires NonEmpty(variants) && forall v :: v in variants ==> Harmless(v)
    ensures Complete(variants)
  {
    forall s: string, v: string | v in variants ensures !Occurs(v, RedactAll(variants, s)) {
      BracketFreeIsApart(v);
      RedactComplete(variants, s, v);
    }
  }

  lemma HarmlessWhenComplete(variants: seq<string>)
    requires NonEmpty(variants) && Sorted(Before, variants)
    requires forall v :: v in variants ==> BracketFree(v)
    requires Complete(variants)
    ensures forall v :: v in variants ==> !Occurs(v, "REDACTED")
  {
    hide Before, Apart;
    if v :| v in variants && Occurs(v, "REDACTED") {
      var j :| 0 <= j < |variants| && variants[j] == v;
      var first, u, later := LastInMark(variants, j);
      SortedAround(first, u, later);
      forall w | w in later ensures Apart(w) { BracketFreeIsApart(w); }
      assert variants[|first|] == u;
      CompleteMeans(variants, u, u);
      MarkShowsVariant(first, u, later);
    }
  }

  /** For variants without brackets, completeness is decided by the word inside the mark. */
  lemma CompleteIff(variants: seq<string>)
    requires NonEmpty(variants) && Sorted(Before, variants)
    requires forall v :: v in variants ==> BracketFree(v)
    ensures Complete(variants) <==> forall v :: v in variants ==> !Occurs(v, "REDACTED")
  {
    if Complete(variants) {
      HarmlessWhenComplete(variants);
    } else if forall v :: v in variants ==> !Occurs(v, "REDACTED") {
      CompleteWhenHarmless(variants);
    }
  }

  // ---- the encodings never matter: only the secrets themselves can spoil the mark ------------

  lemma LongIsHarmless(v: string)
    requires BracketFree(v) && |v| > 8
    ensures Harmless(v)
  {
  }

  lemma {:induction false} HexHarmless(b: Bytes, upper: bool)
    ensures BracketFree(Hex(b, upper)) && |Hex(b, upper)| == 2 * |b|
  {
    if b == [] {
    } else {
      HexHarmless(b[..|b| - 1], upper);
    }
  }

  lemma Base64GroupBracketFree(b: Bytes, urlSafe: bool)
    requires 0 < |b| <= 3
    ensures BracketFree(Base64Group(b, urlSafe))
  {
    assert forall v :: 0 <= v < 64 ==> Base64Digit(v, urlSafe) != '[' && Base64Digit(v, urlSafe) != ']';
  }

  lemma {:induction false} Base64Shape(b: Bytes, urlSafe: bool)
    ensures BracketFree(Base64(b, urlSafe)) && |Base64(b, urlSafe)| == (|b| + 2) / 3 * 4
    decreases |b|
  {
    hide Base64Group;
    if 0 < |b| <= 3 {
      Base64GroupBracketFree(b, urlSafe);
    } else if b != [] {
      Base64GroupBracketFree(b[..3], urlSafe);
      Base64Shape(b[3..], urlSafe);
    }
  }

  lemma Base64DigitIs(v: int, urlSafe: bool)
    requires 0 <= v < 64
    ensures Base64Digit(v, urlSafe) == 'R' ==> v == 17
    ensures Base64Digit(v, urlSafe) == 'E' ==> v == 4
    ensures Base64Digit(v, urlSafe) == 'D' ==> v == 3
    ensures Base64Digit(v, urlSafe) == 'A' ==> v == 0
  {
  }

  lemma GroupOfReda(b: Bytes, urlSafe: bool)
    requires |b| == 3 && Base64Group(b, urlSafe) == "REDA"
    ensures b == [0x44, 0x40, 0xC0]
  {
    var c := Base64Group(b, urlSafe);
    Base64DigitIs(b[0] / 4, urlSafe);
    Base64DigitIs(b[0] % 4 * 16 + b[1] / 16, urlSafe);
    Base64DigitIs(b[1] % 16 * 4 + b[2] / 64, urlSafe);
    Base64DigitIs(b[2] % 64, urlSafe);
    assert c[0] == 'R' && c[1] == 'E' && c[2] == 'D' && c[3] == 'A';
  }

  /** The byte 0xC0 occurs in no UTF-8 text. */
  lemma NotText(b: Bytes)
    requires |b| >= 3 && b[..3] == [0x44, 0x40, 0xC0]
    ensures !Valid(b)
  {
    var t := b[1..];
    var u := t[1..];
    assert b[..3][0] == b[0] && b[..3][1] == t[0] && b[..3][2] == u[0];
    assert HeadLen(b) == 1 && HeadLen(t) == 1 && HeadLen(u) == 0;
    assert ValidUpTo(u) == 0;
    assert ValidUpTo(t) == 1;
  }

  /** The bytes that Base 64 writes as `REDA...` are no text, so no text is written as `REDACTED`. */
  lemma Base64NeverRedacted(secret: string, urlSafe: bool)
    requires |Encode(secret)| >= 6
    ensures Base64(Encode(secret), urlSafe) != "REDACTED"
  {
    hide Base64Group;
    var b := Encode(secret);
    EncodeIsValid(secret);
    var c, more := Base64Group(b[..3], urlSafe), Base64(b[3..], urlSafe);
    if c + more == "REDACTED" {
      assert c == (c + more)[..4] == "REDACTED"[..4] == "REDA";
      GroupOfReda(b[..3], urlSafe);
      NotText(b);
    }
  }

  lemma Base64Harmless(secret: string, urlSafe: bool)
    requires |Encode(secret)| >= 6
    ensures Harmless(Base64(Encode(secret), urlSafe))
  {
    var v := Base64(Encode(secret), urlSafe);
    Base64Shape(Encode(secret), urlSafe);
    Base64NeverRedacted(secret, urlSafe);
    assert "REDACTED"[0..8] == "REDACTED";
  }

  predicate Capitals(s: string) { forall i :: 0 <= i < |s| ==> 'A' <= s[i] <= 'Z' }

  lemma {:induction false} FormBracketFree(b: Bytes)
    ensures BracketFree(FormEncode(b))
  {
    if b == [] {
    } else {
      FormBracketFree(b[1..]);
    }
  }

  /** Form encoding that yields only capitals has changed nothing. */
  lemma {:induction false} FormOfCapitals(b: Bytes)
    requires Capitals(FormEncode(b))
    ensures Encode(FormEncode(b)) == b
  {
    if b == [] {
    } else {
      var f := FormEncode(b);
      assert 'A' <= f[0] <= 'Z';
      assert FormPlain(b[0]);
      assert f == [b[0] as char] + FormEncode(b[1..]);
      assert forall i :: 0 <= i < |FormEncode(b[1..])| ==> FormEncode(b[1..])[i] == f[i + 1];
      FormOfCapitals(b[1..]);
      EncodeCons(b[0] as char, FormEncode(b[1..]));
      assert b == [b[0]] + b[1..];
    }
  }

  lemma {:induction false} FormHarmlessUnlessSecret(secret: string)
    requires !Occurs(secret, "REDACTED")
    ensures Harmless(FormEncode(Encode(secret))) || FormEncode(Encode(secret)) == ""
  {
    hide FormEncode, Encode;
    var f := FormEncode(Encode(secret));
    FormBracketFree(Encode(secret));
    if i :| At("REDACTED", f, i) {
      forall k | 0 <= k < |f| ensures 'A' <= f[k] <= 'Z' {
        AtChar("REDACTED", f, i, k);
        assert forall j :: 0 <= j < 8 ==> 'A' <= "REDACTED"[j] <= 'Z';
      }
      FormOfCapitals(Encode(secret));
      EncodeInjective(f, secret);
    }
  }

  lemma VariantsHarmless(secret: string, v: string)
    requires BracketFree(secret) && !Occurs(secret, "REDACTED") && v in VariantsOf(secret)
    ensures Harmless(v)
  {
    hide Base64, Hex, FormEncode;
    var bytes := Encode(secret);
    if |bytes| >= 6 {
      Base64Harmless(secret, false);
      Base64Harmless(secret, true);
      HexHarmless(bytes, false);
      HexHarmless(bytes, true);
      LongIsHarmless(Hex(bytes, false));
      LongIsHarmless(Hex(bytes, true));
      FormHarmlessUnlessSecret(secret);
    }
  }

  lemma VariantsBracketFree(secret: string, v: string)
    requires BracketFree(secret) && v in VariantsOf(secret)
    ensures BracketFree(v)
  {
    hide Base64, Hex, FormEncode;
    var bytes := Encode(secret);
    Base64Shape(bytes, false);
    Base64Shape(bytes, true);
    HexHarmless(bytes, false);
    HexHarmless(bytes, true);
    FormBracketFree(bytes);
  }

  /**
   For secrets without brackets, no secret and none of its encodings ever shows in redacted text,
   exactly when no secret is part of the word `REDACTED`.
   */
  lemma RedactorCompleteIff(r: Redactor, secrets: set<string>)
    requires r.For(secrets) && r.Valid()
    requires forall s :: s in secrets ==> BracketFree(s)
    ensures Complete(r.secrets) <==> forall s :: s in secrets && s != "" ==> !Occurs(s, "REDACTED")
  {
    forall v | v in r.secrets ensures BracketFree(v) {
      var s :| s in secrets && v in VariantsOf(s);
      VariantsBracketFree(s, v);
    }
    CompleteIff(r.secrets);
    if forall s :: s in secrets && s != "" ==> !Occurs(s, "REDACTED") {
      forall v | v in r.secrets ensures !Occurs(v, "REDACTED") {
        var s :| s in secrets && v in VariantsOf(s);
        VariantsHarmless(s, v);
      }
    }
    forall s | s in secrets && s != "" ensures s in r.secrets {
      assert s in VariantsOf(s);
    }
  }

  // ---- secrets with brackets ------------------------------------------------------------------

  lemma HarmlessIsApart(v: string)
    requires v != "" && Harmless(v)
    ensures Apart(v)
  {
    BracketFreeIsApart(v);
  }

  lemma ApartNotInWord(s: string)
    requires s != "" && Apart(s)
    ensures !Occurs(s, "REDACTED")
  {
    NotInMark(s);
    if Occurs(s, "REDACTED") { MarkContains(s); }
  }

  /** The encodings of a secret that stays apart from marks stay apart too. */
  lemma VariantsApart(secret: string, v: string)
    requires Apart(secret) && v in VariantsOf(secret)
    ensures Apart(v)
  {
    hide Base64, Hex, FormEncode, Apart, Harmless;
    var bytes := Encode(secret);
    VariantsNonEmpty(secret);
    ApartNotInWord(secret);
    if v != secret {
      EncodingHarmless(secret, v);
      HarmlessIsApart(v);
    }
  }

  lemma EncodingHarmless(secret: string, v: string)
    requires v in VariantsOf(secret) && v != secret && !Occurs(secret, "REDACTED")
    ensures Harmless(v)
  {
    hide Base64, Hex, FormEncode, Harmless, BracketFree;
    var bytes := Encode(secret);
    Base64Harmless(secret, false);
    Base64Harmless(secret, true);
    HexHarmless(bytes, false);
    HexHarmless(bytes, true);
    LongIsHarmless(Hex(bytes, false));
    LongIsHarmless(Hex(bytes, true));
    FormHarmlessUnlessSecret(secret);
  }

  /** When every secret stays apart from marks, no secret and none of its encodings ever shows. */
  lemma CompleteWhenApart(r: Redactor, secrets: set<string>)
    requires r.For(secrets) && r.Valid()
    requires forall s :: s in secrets && s != "" ==> Apart(s)
    ensures Complete(r.secrets)
  {
    hide Apart, VariantsOf;
    forall s: string, v: string | v in r.secrets ensures !Occurs(v, RedactAll(r.secrets, s)) {
      var secret :| secret in secrets && v in VariantsOf(secret);
      NoVariantsOfNothing(v);
      VariantsApart(secret, v);
      RedactComplete(r.secrets, s, v);
    }
  }

  lemma NoVariantsOfNothing(v: string)
    ensures v !in VariantsOf("")
  {
  }

  // ---- JSON ------------------------------------------------------------------------------------

  /** The value with every string blanked: its shape. */
  function Shape(value: Json): Json {
    match value
    case Null => Null
    case Bool(v) => Bool(v)
    case Number(v) => Number(v)
    case String(v) => String("")
    case Array(values) => Array(seq(|values|, i requires 0 <= i < |values| => Shape(values[i])))
    case Object(fields) => Object(map k | k in fields :: Shape(fields[k]))
  }

  /** No string in the value contains `w`; object keys are not looked at. */
  ghost predicate Clean(value: Json, w: string) {
    match value
    case String(v) => !Occurs(w, v)
    case Array(values) => forall i :: 0 <= i < |values| ==> Clean(values[i], w)
    case Object(fields) => forall k :: k in fields ==> Clean(fields[k], w)
    case _ => true
  }

  lemma {:induction false} RedactJsonKeepsShape(r: Redactor, value: Json)
    requires r.Valid()
    ensures Shape(r.RedactJson(value)) == Shape(value)
    decreases value
  {
    match value
    case Array(values) =>
      forall i | 0 <= i < |values| ensures Shape(r.RedactJson(values[i])) == Shape(values[i]) {
        RedactJsonKeepsShape(r, values[i]);
      }
    case Object(fields) =>
      forall k | k in fields ensures Shape(r.RedactJson(fields[k])) == Shape(fields[k]) {
        RedactJsonKeepsShape(r, fields[k]);
      }
    case _ =>
  }

  /** A step into a JSON value. */
  datatype Step = Item(index: nat) | Field(name: string)

  /** The value at a path, if there is one. */
  function ValueAt(value: Json, path: seq<Step>): Option<Json>
    decreases |path|
  {
    if path == [] then Some(value)
    else if path[0].Item? && value.Array? && path[0].index < |value.items| then
      ValueAt(value.items[path[0].index], path[1..])
    else if path[0].Field? && value.Object? && path[0].name in value.fields then
      ValueAt(value.fields[path[0].name], path[1..])
    else None
  }

  /** The same paths lead into the redacted value, and a string stands redacted in its place. */
  lemma {:induction false} RedactJsonStrings(r: Redactor, value: Json, path: seq<Step>)
    requires r.Valid()
    ensures var before, after := ValueAt(value, path), ValueAt(r.RedactJson(value), path);
            && (before.Some? <==> after.Some?)
            && (before.Some? ==> Shape(before.value) == Shape(after.value))
            && (before.Some? && before.value.String? ==>
                after == Some(String(RedactAll(r.secrets, before.value.text))))
    decreases |path|
  {
    RedactJsonKeepsShape(r, value);
    if path == [] {
    } else if path[0].Item? && value.Array? && path[0].index < |value.items| {
      RedactJsonStrings(r, value.items[path[0].index], path[1..]);
    } else if path[0].Field? && value.Object? && path[0].name in value.fields {
      RedactJsonStrings(r, value.fields[path[0].name], path[1..]);
    }
  }

  /** Every string of the redacted value is clean of every variant. */
  lemma {:induction false} RedactJsonClean(r: Redactor, value: Json, w: string)
    requires r.Valid() && Complete(r.secrets) && w in r.secrets
    ensures Clean(r.RedactJson(value), w)
    decreases value
  {
    match value
    case Array(values) =>
      forall i | 0 <= i < |values| ensures Clean(r.RedactJson(values[i]), w) {
        RedactJsonClean(r, values[i], w);
      }
    case Object(fields) =>
      forall k | k in fields ensures Clean(r.RedactJson(fields[k]), w) {
        RedactJsonClean(r, fields[k], w);
      }
    case _ =>
  }
}
