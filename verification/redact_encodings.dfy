/** What the encoded forms of a secret denote: each is the one text that its decoder reads as the secret. */
module RedactEncodings {
  import opened Wrappers
  import opened Strings
  import opened Utf8
  import opened Sorting
  import opened Redact

  // ---- the decoders --------------------------------------------------------------------

  /** The value of a hexadecimal digit in one letter case; -1 for any other character. */
  function HexValue(c: char, upper: bool): (v: int)
    ensures -1 <= v < 16
  {
    if '0' <= c <= '9' then c as int - '0' as int
    else if upper && 'A' <= c <= 'F' then 10 + (c as int - 'A' as int)
    else if !upper && 'a' <= c <= 'f' then 10 + (c as int - 'a' as int)
    else -1
  }

  /** Two digits a byte, all in one letter case (section 8 of RFC 4648). */
  function HexDecode(s: string, upper: bool): Option<Bytes> {
    if s == "" then Some([])
    else if |s| == 1 then None
    else
      var high, low, rest := HexValue(s[0], upper), HexValue(s[1], upper), HexDecode(s[2..], upper);
      if high < 0 || low < 0 || rest.None? then None else Some([high * 16 + low] + rest.value)
  }

  /** The value of a Base 64 digit (table 1 or 2 of RFC 4648); -1 for any other character. */
  function Base64Value(c: char, urlSafe: bool): (v: int)
    ensures -1 <= v < 64
  {
    if 'A' <= c <= 'Z' then c as int - 'A' as int
    else if 'a' <= c <= 'z' then 26 + (c as int - 'a' as int)
    else if '0' <= c <= '9' then 52 + (c as int - '0' as int)
    else if c == (if urlSafe then '-' else '+') then 62
    else if c == (if urlSafe then '_' else '/') then 63
    else -1
  }

  /** Four digits as up to three bytes; the bits that padding leaves over must be zero. */
  function Base64Quad(s: string, urlSafe: bool): Option<Bytes>
    requires |s| == 4
  {
    var a, b, c, d := Base64Value(s[0], urlSafe), Base64Value(s[1], urlSafe),
                      Base64Value(s[2], urlSafe), Base64Value(s[3], urlSafe);
    if a < 0 || b < 0 then None
    else if s[2] == '=' && s[3] == '=' then (if b % 16 == 0 then Some([a * 4 + b / 16]) else None)
    else if c < 0 then None
    else if s[3] == '=' then (if c % 4 == 0 then Some([a * 4 + b / 16, b % 16 * 16 + c / 4]) else None)
    else if d < 0 then None
    else Some([a * 4 + b / 16, b % 16 * 16 + c / 4, c % 4 * 64 + d])
  }

  /** Padded Base 64: only the last four digits may stand for fewer than three bytes. */
  function Base64Decode(s: string, urlSafe: bool): Option<Bytes> {
    if s == "" then Some([])
    else if |s| < 4 then None
    else
      var head, rest := Base64Quad(s[..4], urlSafe), Base64Decode(s[4..], urlSafe);
      if head.None? || rest.None? || (|head.value| < 3 && |s| > 4) then None else Some(head.value + rest.value)
  }

  /** The characters that form encoding leaves alone, as the URL Standard lists them. */
  predicate FormSafe(c: char) {
    'a' <= c <= 'z' || 'A' <= c <= 'Z' || '0' <= c <= '9' || c in "*-._"
  }

  /** `application/x-www-form-urlencoded`: escapes are for the other bytes only, a space is a plus sign. */
  function FormDecode(s: string): Option<Bytes> {
    if s == "" then Some([])
    else if s[0] == '%' then
      if |s| < 3 then None
      else
        var high, low, rest := HexValue(s[1], true), HexValue(s[2], true), FormDecode(s[3..]);
        if high < 0 || low < 0 || rest.None? then None
        else if high * 16 + low == 0x20 || FormSafe((high * 16 + low) as char) then None
        else Some([high * 16 + low] + rest.value)
    else
      var rest := FormDecode(s[1..]);
      if rest.None? then None
      else if s[0] == '+' then Some([0x20] + rest.value)
      else if FormSafe(s[0]) then Some([s[0] as int] + rest.value)
      else None
  }

  /** `v` is the secret in one of the five encodings. */
  predicate Denotes(v: string, secret: string) {
    var bytes := Some(Encode(secret));
    || Base64Decode(v, false) == bytes || Base64Decode(v, true) == bytes
    || HexDecode(v, false) == bytes || HexDecode(v, true) == bytes
    || FormDecode(v) == bytes
  }

  // ---- hexadecimal ---------------------------------------------------------------------------

  lemma HexValueIs(c: char, v: int, upper: bool)
    requires 0 <= v < 16
    ensures HexValue(c, upper) == v <==> c == HexDigit(v, upper)
  {
  }

  lemma {:induction false} HexHead(b: Bytes, upper: bool)
    requires b != []
    ensures Hex(b, upper) == [HexDigit(b[0] / 16, upper), HexDigit(b[0] % 16, upper)] + Hex(b[1..], upper)
    decreases |b|
  {
    hide HexDigit;
    var n := |b| - 1;
    var last := [HexDigit(b[n] / 16, upper), HexDigit(b[n] % 16, upper)];
    if n == 0 {
      assert b[..n] == [] && b[1..] == [];
      assert last + [] == [] + last;
    } else {
      HexHead(b[..n], upper);
      assert b[..n][1..] == b[1..][..n - 1];
      Regroup([HexDigit(b[0] / 16, upper), HexDigit(b[0] % 16, upper)], Hex(b[1..][..n - 1], upper), last);
    }
  }

  /** The hexadecimal form of some bytes is the one text that reads as these bytes. */
  lemma {:induction false} HexDecodesIff(s: string, b: Bytes, upper: bool)
    ensures HexDecode(s, upper) == Some(b) <==> s == Hex(b, upper)
    decreases |s| + |b|
  {
    hide HexValue, HexDigit;
    if b != [] {
      HexHead(b, upper);
      var t := Hex(b[1..], upper);
      if |s| >= 2 {
        HexDecodesIff(s[2..], b[1..], upper);
        HexByte(s[0], s[1], b[0], upper);
        assert s == [s[0], s[1]] + s[2..] && b == [b[0]] + b[1..];
      }
    }
  }

  lemma HexByte(high: char, low: char, b: Byte, upper: bool)
    ensures HexValue(high, upper) >= 0 && HexValue(low, upper) >= 0
            && HexValue(high, upper) * 16 + HexValue(low, upper) == b
            <==> high == HexDigit(b / 16, upper) && low == HexDigit(b % 16, upper)
  {
    hide HexValue, HexDigit;
    HexValueIs(high, b / 16, upper);
    HexValueIs(low, b % 16, upper);
  }

  // ---- Base 64 ---------------------------------------------------------------------------------

  lemma Base64ValueIs(c: char, v: int, urlSafe: bool)
    requires 0 <= v < 64
    ensures Base64Value(c, urlSafe) == v <==> c == Base64Digit(v, urlSafe)
    ensures Base64Digit(v, urlSafe) != '='
  {
  }

  lemma GroupBits(b0: Byte, b1: Byte, b2: Byte)
    ensures var w, x, y, z := b0 / 4, b0 % 4 * 16 + b1 / 16, b1 % 16 * 4 + b2 / 64, b2 % 64;
            && w * 4 + x / 16 == b0 && x % 16 * 16 + y / 4 == b1 && y % 4 * 64 + z == b2
            && (b1 == 0 ==> x % 16 == 0) && (b2 == 0 ==> y % 4 == 0)
  {
  }

  /** Four digits that spell three bytes, or fewer and padding. */
  lemma QuadSpells(s: string, b: Bytes, w: int, x: int, y: int, z: int, urlSafe: bool)
    requires |s| == 4 && 0 < |b| <= 3
    requires Base64Value(s[0], urlSafe) == w >= 0 && Base64Value(s[1], urlSafe) == x >= 0
    requires if |b| > 1 then Base64Value(s[2], urlSafe) == y >= 0 && s[2] != '=' else s[2] == '='
    requires if |b| > 2 then Base64Value(s[3], urlSafe) == z >= 0 && s[3] != '=' else s[3] == '='
    requires b[0] == w * 4 + x / 16
    requires if |b| > 1 then b[1] == x % 16 * 16 + y / 4 else x % 16 == 0
    requires if |b| > 2 then b[2] == y % 4 * 64 + z else |b| == 1 || y % 4 == 0
    ensures Base64Quad(s, urlSafe) == Some(b)
  {
    hide Base64Value;
    assert b == if |b| == 1 then [b[0]] else if |b| == 2 then [b[0], b[1]] else [b[0], b[1], b[2]];
  }

  lemma QuadOfGroup(b: Bytes, urlSafe: bool)
    requires 0 < |b| <= 3
    ensures Base64Quad(Base64Group(b, urlSafe), urlSafe) == Some(b)
  {
    hide Base64Value, Base64Digit, Base64Quad;
    var s := Base64Group(b, urlSafe);
    var b1 := if |b| > 1 then b[1] else 0;
    var b2 := if |b| > 2 then b[2] else 0;
    var w, x, y, z := b[0] / 4, b[0] % 4 * 16 + b1 / 16, b1 % 16 * 4 + b2 / 64, b2 % 64;
    Base64ValueIs(s[0], w, urlSafe);
    Base64ValueIs(s[1], x, urlSafe);
    Base64ValueIs(s[2], y, urlSafe);
    Base64ValueIs(s[3], z, urlSafe);
    GroupBits(b[0], b1, b2);
    QuadSpells(s, b, w, x, y, z, urlSafe);
  }

  lemma GroupOfQuad(s: string, urlSafe: bool)
    requires |s| == 4 && Base64Quad(s, urlSafe).Some?
    ensures var b := Base64Quad(s, urlSafe).value;
            0 < |b| <= 3 && Base64Group(b, urlSafe) == s
  {
    hide Base64Value, Base64Digit;
    var b := Base64Quad(s, urlSafe).value;
    var values := seq(4, i requires 0 <= i < 4 => Base64Value(s[i], urlSafe));
    forall i | 0 <= i < 4 && values[i] >= 0 ensures s[i] == Base64Digit(values[i], urlSafe) {
      Base64ValueIs(s[i], values[i], urlSafe);
    }
  }

  lemma {:induction false} Base64Reads(b: Bytes, urlSafe: bool)
    ensures Base64Decode(Base64(b, urlSafe), urlSafe) == Some(b)
    decreases |b|
  {
    hide Base64Group, Base64Quad;
    if b == [] {
    } else if |b| <= 3 {
      var s := Base64(b, urlSafe);
      QuadOfGroup(b, urlSafe);
      assert s[..4] == s && s[4..] == "";
      assert b + [] == b;
    } else {
      var head, rest := Base64Group(b[..3], urlSafe), Base64(b[3..], urlSafe);
      QuadOfGroup(b[..3], urlSafe);
      Base64Reads(b[3..], urlSafe);
      assert (head + rest)[..4] == head && (head + rest)[4..] == rest;
      assert b == b[..3] + b[3..];
    }
  }

  lemma {:induction false} Base64Unique(s: string, b: Bytes, urlSafe: bool)
    requires Base64Decode(s, urlSafe) == Some(b)
    ensures s == Base64(b, urlSafe)
    decreases |s|
  {
    hide Base64Group, Base64Quad;
    if s != "" {
      var head, rest := Base64Quad(s[..4], urlSafe).value, Base64Decode(s[4..], urlSafe).value;
      GroupOfQuad(s[..4], urlSafe);
      Base64Unique(s[4..], rest, urlSafe);
      assert s == s[..4] + s[4..];
      if |s| == 4 {
        assert b == head && s[..4] == s;
      } else {
        Base64NotEmpty(s[4..], rest, urlSafe);
        assert b[..3] == head && b[3..] == rest;
      }
    }
  }

  lemma Base64NotEmpty(s: string, b: Bytes, urlSafe: bool)
    requires s != "" && s == Base64(b, urlSafe)
    ensures b != []
  {
  }

  /** The Base 64 form of some bytes is the one padded text that reads as these bytes. */
  lemma {:induction false} Base64DecodesIff(s: string, b: Bytes, urlSafe: bool)
    ensures Base64Decode(s, urlSafe) == Some(b) <==> s == Base64(b, urlSafe)
  {
    if Base64Decode(s, urlSafe) == Some(b) {
      Base64Unique(s, b, urlSafe);
    }
    Base64Reads(b, urlSafe);
  }

  // ---- form encoding -----------------------------------------------------------------------------

  lemma FormSafeIsPlain(b: Byte)
    ensures FormPlain(b) <==> FormSafe(b as char)
    ensures FormPlain(b) ==> b as char != '%' && b as char != '+' && b != 0x20
  {
  }

  lemma {:induction false} FormReads(b: Bytes)
    ensures FormDecode(FormEncode(b)) == Some(b)
  {
    hide FormPlain, FormSafe, HexValue, HexDigit;
    if b == [] {
    } else {
      var s, t := FormEncode(b), FormEncode(b[1..]);
      FormReads(b[1..]);
      FormSafeIsPlain(b[0]);
      assert b == [b[0]] + b[1..];
      if FormPlain(b[0]) || b[0] == 0x20 {
        assert s[1..] == t;
      } else {
        assert s[3..] == t;
        HexByte(s[1], s[2], b[0], true);
      }
    }
  }

  lemma {:induction false} FormUnique(s: string, b: Bytes)
    requires FormDecode(s) == Some(b)
    ensures s == FormEncode(b)
    decreases |s|
  {
    hide FormPlain, HexValue, HexDigit, FormSafe;
    if s == "" {
    } else if s[0] == '%' {
      FormUnique(s[3..], b[1..]);
      FormSafeIsPlain(b[0]);
      HexByte(s[1], s[2], b[0], true);
      assert s == ['%', s[1], s[2]] + s[3..];
    } else {
      FormUnique(s[1..], b[1..]);
      FormSafeIsPlain(b[0]);
      assert s == [s[0]] + s[1..];
    }
  }

  /** The form encoding of some bytes is the one text that reads as these bytes. */
  lemma {:induction false} FormDecodesIff(s: string, b: Bytes)
    ensures FormDecode(s) == Some(b) <==> s == FormEncode(b)
  {
    if FormDecode(s) == Some(b) {
      FormUnique(s, b);
    }
    FormReads(b);
  }

  // ---- what the redactor looks for -----------------------------------------------------------------

  /** The texts looked for are the secret and, from six bytes on, everything that decodes to it. */
  lemma {:induction false} VariantsIff(secret: string, v: string)
    ensures v in VariantsOf(secret)
            <==> secret != "" && (v == secret || (|Encode(secret)| >= 6 && Denotes(v, secret)))
  {
    hide Base64, Hex, FormEncode, Base64Decode, HexDecode, FormDecode, Encode;
    var b := Encode(secret);
    Base64DecodesIff(v, b, false);
    Base64DecodesIff(v, b, true);
    HexDecodesIff(v, b, false);
    HexDecodesIff(v, b, true);
    FormDecodesIff(v, b);
    if b != [] { FormNotEmpty(b); }
  }

  lemma FormNotEmpty(b: Bytes)
    requires b != []
    ensures FormEncode(b) != ""
  {
  }

  /** Longer texts come first, and of equally long ones the one with the smaller byte where they differ. */
  lemma {:induction false} ListOrder(r: Redactor, secrets: set<string>, i: nat, j: nat)
    requires r.For(secrets) && i < j < |r.secrets|
    ensures var a, b := Encode(r.secrets[i]), Encode(r.secrets[j]);
            |a| > |b| || (|a| == |b| && exists k :: 0 <= k < |a| && a[..k] == b[..k] && a[k] < b[k])
  {
    var a, b := Encode(r.secrets[i]), Encode(r.secrets[j]);
    assert Before(r.secrets[i], r.secrets[j]);
    LexIsFirstDifference(a, b);
  }

  /**
   Redacting for some secrets that stay apart from marks: neither a secret nor any text that decodes to a
   secret of six bytes or more is left, and a text in which nothing of the kind occurs is left alone.
   */
  method RedactFor(secrets: seq<string>, input: string) returns (out: string)
    requires forall s :: s in secrets && s != "" ==> Apart(s)
    ensures forall s, v :: s in secrets && s != "" && (v == s || (|Encode(s)| >= 6 && Denotes(v, s))) ==>
                             !Occurs(v, out)
    ensures (forall s, v :: s in secrets && s != "" && (v == s || (|Encode(s)| >= 6 && Denotes(v, s))) ==>
                              !Occurs(v, input)) ==> out == input
  {
    hide Apart, Denotes, VariantsOf, RedactAll, Encode;
    var r := Redactor.New(secrets);
    out := r.Redact(input);
    ghost var all := set s | s in secrets;
    CompleteWhenApart(r, all);
    forall v ensures v in r.secrets
                     <==> exists s :: s in secrets && s != "" && (v == s || (|Encode(s)| >= 6 && Denotes(v, s))) {
      Listed(r, secrets, v);
    }
    if forall v :: v in r.secrets ==> !Occurs(v, input) {
      RedactNothing(r.secrets, input);
    }
    forall v | v in r.secrets ensures !Occurs(v, out) { CompleteMeans(r.secrets, input, v); }
  }

  lemma Listed(r: Redactor, secrets: seq<string>, v: string)
    requires r.For(set s | s in secrets)
    ensures v in r.secrets
            <==> exists s :: s in secrets && s != "" && (v == s || (|Encode(s)| >= 6 && Denotes(v, s)))
  {
    hide Denotes, VariantsOf, Encode;
    var all := set s | s in secrets;
    assert v in r.secrets <==> v in Variants(all);
    if v in Variants(all) {
      var s :| s in all && v in VariantsOf(s);
      VariantsIff(s, v);
    }
    if s :| s in secrets && s != "" && (v == s || (|Encode(s)| >= 6 && Denotes(v, s))) {
      VariantsIff(s, v);
      assert s in all;
    }
  }
}
