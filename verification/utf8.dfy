/**
 UTF-8 as `std::str::from_utf8` reads it: the byte syntax of RFC 3629, section 4, next to the
 encoding table of section 3, and the proof that the two describe the same texts.
 */
module Utf8 {
  import opened Wrappers
  import opened Strings

  type Byte = b: int | 0 <= b < 256
  type Bytes = seq<Byte>

  // ---- the byte syntax -----------------------------------------------------

  predicate IsTail(b: Byte) { 0x80 <= b <= 0xBF }

  predicate StartsThree(b0: Byte, b1: Byte) {
    || (b0 == 0xE0 && 0xA0 <= b1 <= 0xBF)
    || (0xE1 <= b0 <= 0xEC && IsTail(b1))
    || (b0 == 0xED && 0x80 <= b1 <= 0x9F)
    || (0xEE <= b0 <= 0xEF && IsTail(b1))
  }

  predicate StartsFour(b0: Byte, b1: Byte) {
    || (b0 == 0xF0 && 0x90 <= b1 <= 0xBF)
    || (0xF1 <= b0 <= 0xF3 && IsTail(b1))
    || (b0 == 0xF4 && 0x80 <= b1 <= 0x8F)
  }

  /** The length of the well-formed character at the head of `s`; 0 when there is none. */
  function HeadLen(s: Bytes): (n: nat)
    ensures n <= |s| && n <= 4
  {
    if |s| >= 1 && s[0] <= 0x7F then 1
    else if |s| >= 2 && 0xC2 <= s[0] <= 0xDF && IsTail(s[1]) then 2
    else if |s| >= 3 && StartsThree(s[0], s[1]) && IsTail(s[2]) then 3
    else if |s| >= 4 && StartsFour(s[0], s[1]) && IsTail(s[2]) && IsTail(s[3]) then 4
    else 0
  }

  /** `Utf8Error::valid_up_to`, or the whole length when `from_utf8` succeeds. */
  function ValidUpTo(s: Bytes): (v: nat)
    ensures v <= |s|
  {
    var n := HeadLen(s);
    if n == 0 then 0 else n + ValidUpTo(s[n..])
  }

  predicate Valid(s: Bytes) { ValidUpTo(s) == |s| }

  // ---- the encoding table ----------------------------------------------------

  function EncodeChar(c: char): (b: Bytes)
    ensures 1 <= |b| <= 4
  {
    var v := c as int;
    if v <= 0x7F then [v]
    else if v <= 0x7FF then [0xC0 + v / 64, 0x80 + v % 64]
    else if v <= 0xFFFF then [0xE0 + v / 4096, 0x80 + v / 64 % 64, 0x80 + v % 64]
    else [0xF0 + v / 262144, 0x80 + v / 4096 % 64, 0x80 + v / 64 % 64, 0x80 + v % 64]
  }

  function Encode(t: string): Bytes {
    if t == [] then [] else EncodeChar(t[0]) + Encode(t[1..])
  }

  /** The scalar value that the bytes of one character stand for. */
  function CodePoint(b: Bytes): int {
    if |b| == 1 then b[0]
    else if |b| == 2 then (b[0] as int - 0xC0) * 64 + (b[1] as int - 0x80)
    else if |b| == 3 then
      (b[0] as int - 0xE0) * 4096 + (b[1] as int - 0x80) * 64 + (b[2] as int - 0x80)
    else if |b| == 4 then
      (b[0] as int - 0xF0) * 262144 + (b[1] as int - 0x80) * 4096 + (b[2] as int - 0x80) * 64
      + (b[3] as int - 0x80)
    else 0
  }

  function TwoDigits(high: int, low: Byte): int { high * 64 + (low as int - 0x80) }

  /** The bytes spell the scalar value in digits of base 64, the highest first. */
  lemma {:induction false} CodePointOfEncoded(c: char)
    ensures CodePoint(EncodeChar(c)) == c as int
    ensures var b := EncodeChar(c);
            c as int == if |b| == 1 then b[0] else if |b| == 2 then TwoDigits(b[0] as int - 0xC0, b[1])
                        else if |b| == 3 then TwoDigits(TwoDigits(b[0] as int - 0xE0, b[1]), b[2])
                        else TwoDigits(TwoDigits(TwoDigits(b[0] as int - 0xF0, b[1]), b[2]), b[3])
  {
    var v := c as int;
    var b := EncodeChar(c);
    var hi := v / 64;
    assert v == hi * 64 + v % 64;
    if 0x7FF < v <= 0xFFFF {
      assert v / 4096 == hi / 64;
      assert hi == hi / 64 * 64 + hi % 64;
      assert b[0] - 0xE0 == hi / 64 && b[1] - 0x80 == hi % 64 && b[2] - 0x80 == v % 64;
    } else if 0xFFFF < v {
      assert v / 4096 == hi / 64 && v / 262144 == hi / 64 / 64;
      assert hi == hi / 64 * 64 + hi % 64;
      assert hi / 64 == hi / 64 / 64 * 64 + hi / 64 % 64;
      assert b[0] - 0xF0 == hi / 64 / 64 && b[1] - 0x80 == hi / 64 % 64
          && b[2] - 0x80 == hi % 64 && b[3] - 0x80 == v % 64;
    }
  }

  lemma Digit(hi: int, lo: int)
    requires 0 <= hi && 0 <= lo < 64
    ensures (hi * 64 + lo) / 64 == hi && (hi * 64 + lo) % 64 == lo
  {
  }

  lemma TwoBytes(b: Bytes)
    requires |b| == 2 && HeadLen(b) == 2
    ensures 0x80 <= CodePoint(b) <= 0x7FF && EncodeChar(CodePoint(b) as char) == b
  {
    Digit(b[0] as int - 0xC0, b[1] as int - 0x80);
  }

  lemma {:induction false} ThreeBytes(b: Bytes)
    requires |b| == 3 && HeadLen(b) == 3
    ensures 0x800 <= CodePoint(b) <= 0xFFFF && !(0xD800 <= CodePoint(b) <= 0xDFFF)
    ensures EncodeChar(CodePoint(b) as char) == b
  {
    var v, z, y, x := CodePoint(b), b[0] as int - 0xE0, b[1] as int - 0x80, b[2] as int - 0x80;
    var hi := z * 64 + y;
    Digit(z, y);
    Digit(hi, x);
    assert v == hi * 64 + x;
    assert v / 4096 == v / 64 / 64;
    assert [0xE0 + z, 0x80 + y, 0x80 + x] == b;
  }

  lemma {:induction false} FourBytes(b: Bytes)
    requires |b| == 4 && HeadLen(b) == 4
    ensures 0x1_0000 <= CodePoint(b) <= 0x10_FFFF && EncodeChar(CodePoint(b) as char) == b
  {
    var v := CodePoint(b);
    var w, z, y, x := b[0] as int - 0xF0, b[1] as int - 0x80, b[2] as int - 0x80, b[3] as int - 0x80;
    var top := w * 64 + z;
    var hi := top * 64 + y;
    Digit(w, z);
    Digit(top, y);
    Digit(hi, x);
    assert v == hi * 64 + x;
    assert v / 4096 == v / 64 / 64 && v / 262144 == v / 4096 / 64;
    assert [0xF0 + w, 0x80 + z, 0x80 + y, 0x80 + x] == b;
  }

  /** The scalar value of the well-formed character at the head of `s`. */
  function DecodeChar(s: Bytes): (c: char)
    requires HeadLen(s) > 0
    ensures EncodeChar(c) == s[..HeadLen(s)]
  {
    var b := s[..HeadLen(s)];
    assert b[0] == s[0] && HeadLen(b) == |b|;
    if |b| == 1 then s[0] as char
    else if |b| == 2 then TwoBytes(b); CodePoint(b) as char
    else if |b| == 3 then ThreeBytes(b); CodePoint(b) as char
    else FourBytes(b); CodePoint(b) as char
  }

  lemma EncodeCons(c: char, t: string)
    ensures Encode([c] + t) == EncodeChar(c) + Encode(t)
  {
    assert ([c] + t)[1..] == t;
  }

  /** The text of the valid bytes `s`. */
  function Decode(s: Bytes): (t: string)
    requires Valid(s)
    ensures Encode(t) == s
  {
    if s == [] then []
    else
      ValidHead(s);
      var n := HeadLen(s);
      var rest := Decode(s[n..]);
      DecodedHead(s, rest);
      [DecodeChar(s)] + rest
  }

  lemma ValidHead(s: Bytes)
    requires Valid(s) && s != []
    ensures HeadLen(s) > 0 && Valid(s[HeadLen(s)..])
  {
  }

  lemma DecodedHead(s: Bytes, rest: string)
    requires HeadLen(s) > 0 && Encode(rest) == s[HeadLen(s)..]
    ensures Encode([DecodeChar(s)] + rest) == s
  {
    hide Encode, EncodeChar, HeadLen, DecodeChar;
    EncodeCons(DecodeChar(s), rest);
  }

  // ---- syntax and table agree ------------------------------------------------

  lemma EncodedCharIsHead(c: char, rest: Bytes)
    ensures HeadLen(EncodeChar(c) + rest) == |EncodeChar(c)|
  {
    hide HeadLen, EncodeChar;
    EncodedCharIsWhole(c);
    HeadStays(EncodeChar(c), rest);
  }

  lemma EncodedCharIsWhole(c: char)
    ensures HeadLen(EncodeChar(c)) == |EncodeChar(c)|
  {
    var v := c as int;
    if 0x7FF < v <= 0xFFFF {
      ThreeByteHead(v);
    } else if 0xFFFF < v {
      FourByteHead(v);
    }
  }

  lemma ThreeByteHead(v: int)
    requires 0x7FF < v < 0xD800 || 0xDFFF < v <= 0xFFFF
    ensures StartsThree(0xE0 + v / 4096, 0x80 + v / 64 % 64)
  {
    var hi := v / 64;
    assert v / 4096 == hi / 64 && hi == hi / 64 * 64 + hi % 64;
  }

  lemma FourByteHead(v: int)
    requires 0xFFFF < v <= 0x10_FFFF
    ensures v / 262144 <= 4 && StartsFour(0xF0 + v / 262144, 0x80 + v / 4096 % 64)
  {
    var hi := v / 4096;
    assert v / 262144 == hi / 64 && hi == hi / 64 * 64 + hi % 64;
  }

  lemma HeadStays(b: Bytes, rest: Bytes)
    requires 0 < HeadLen(b) == |b|
    ensures HeadLen(b + rest) == |b|
  {
    assert forall i :: 0 <= i < |b| ==> (b + rest)[i] == b[i];
  }

  lemma {:induction false} EncodeCharInjective(c: char, d: char)
    requires EncodeChar(c) == EncodeChar(d)
    ensures c == d
  {
    CodePointOfEncoded(c);
    CodePointOfEncoded(d);
  }

  /** What follows an encoded text is read as if it stood alone. */
  lemma {:induction false} ValidUpToEncoded(t: string, rest: Bytes)
    ensures ValidUpTo(Encode(t) + rest) == |Encode(t)| + ValidUpTo(rest)
  {
    if t == [] {
      assert Encode(t) + rest == rest;
    } else {
      var tail := Encode(t[1..]) + rest;
      assert Encode(t) + rest == EncodeChar(t[0]) + tail;
      EncodedCharIsHead(t[0], tail);
      assert (EncodeChar(t[0]) + tail)[|EncodeChar(t[0])|..] == tail;
      ValidUpToEncoded(t[1..], rest);
    }
  }

  lemma EncodeIsValid(t: string)
    ensures Valid(Encode(t))
  {
    ValidUpToEncoded(t, []);
    assert Encode(t) + [] == Encode(t);
  }

  lemma {:induction false} EncodeInjective(t: string, u: string)
    requires Encode(t) == Encode(u)
    ensures t == u
  {
    if t != [] && u != [] {
      var a, b := EncodeChar(t[0]), EncodeChar(u[0]);
      EncodedCharIsHead(t[0], Encode(t[1..]));
      EncodedCharIsHead(u[0], Encode(u[1..]));
      assert a == Encode(t)[..|a|] == Encode(u)[..|b|] == b;
      EncodeCharInjective(t[0], u[0]);
      assert Encode(t)[|a|..] == Encode(t[1..]) && Encode(u)[|a|..] == Encode(u[1..]);
      EncodeInjective(t[1..], u[1..]);
      assert t == [t[0]] + t[1..] && u == [u[0]] + u[1..];
    }
  }

  lemma {:induction false} DecodeEncode(t: string)
    ensures Valid(Encode(t)) && Decode(Encode(t)) == t
  {
    EncodeIsValid(t);
    EncodeInjective(Decode(Encode(t)), t);
  }

  /** The byte syntax accepts exactly the encodings of texts. */
  lemma ValidIffEncoded(s: Bytes)
    ensures Valid(s) <==> exists t :: Encode(t) == s
  {
    if Valid(s) { assert Encode(Decode(s)) == s; }
    if t :| Encode(t) == s { EncodeIsValid(t); }
  }

  lemma {:induction false} EncodeAppend(t: string, u: string)
    ensures Encode(t + u) == Encode(t) + Encode(u)
  {
    if t == [] {
      assert t + u == u;
    } else {
      assert (t + u)[1..] == t[1..] + u;
      EncodeAppend(t[1..], u);
    }
  }

  // ---- prefixes ------------------------------------------------------------------

  lemma {:induction false} ValidPrefix(s: Bytes)
    ensures Valid(s[..ValidUpTo(s)])
  {
    var n := HeadLen(s);
    if n > 0 {
      var v := ValidUpTo(s);
      assert s[..v][n..] == s[n..][..v - n];
      ValidPrefix(s[n..]);
    }
  }

  lemma {:induction false} ValidAppend(a: Bytes, b: Bytes)
    requires Valid(a)
    ensures ValidUpTo(a + b) == |a| + ValidUpTo(b)
    ensures Valid(b) ==> Valid(a + b) && Decode(a + b) == Decode(a) + Decode(b)
  {
    ValidUpToEncoded(Decode(a), b);
    if Valid(b) {
      EncodeAppend(Decode(a), Decode(b));
      EncodeInjective(Decode(a + b), Decode(a) + Decode(b));
    }
  }

  /** `valid_up_to` ends the longest valid prefix. */
  lemma {:induction false} LongestValidPrefix(s: Bytes, k: nat)
    requires k <= |s| && Valid(s[..k])
    ensures k <= ValidUpTo(s)
  {
    ValidAppend(s[..k], s[k..]);
    assert s == s[..k] + s[k..];
  }

  /** In any prefix of a valid stream at most three bytes wait for the rest of their character. */
  lemma {:induction false} AtMostThreePending(s: Bytes, rest: Bytes)
    requires Valid(s + rest)
    ensures |s| - ValidUpTo(s) <= 3
  {
    var whole := s + rest;
    if s == [] {
    } else {
      var n := HeadLen(whole);
      assert n > 0;
      if n <= |s| {
        assert whole[n..] == s[n..] + rest;
        assert HeadLen(s) == n by { assert forall i :: 0 <= i < |s| ==> whole[i] == s[i]; }
        AtMostThreePending(s[n..], rest);
      }
    }
  }

  /** The longest valid prefix of `s`, and the bytes behind it. */
  function Good(s: Bytes): Bytes { s[..ValidUpTo(s)] }

  function Pending(s: Bytes): Bytes { s[ValidUpTo(s)..] }

  /** The text of the longest valid prefix of `s`. */
  function Text(s: Bytes): (t: string)
    ensures Encode(t) == Good(s)
  {
    ValidPrefix(s);
    Decode(Good(s))
  }

  lemma GoodAndPending(s: Bytes)
    ensures Valid(Good(s)) && Good(s) + Pending(s) == s && Text(s) == Decode(Good(s))
  {
    ValidPrefix(s);
  }

  lemma {:induction false} TextOfEncoded(t: string)
    ensures Text(Encode(t)) == t && Pending(Encode(t)) == []
  {
    DecodeEncode(t);
    assert Good(Encode(t)) == Encode(t);
  }

  lemma {:induction false} GoodAppend(a: Bytes, b: Bytes)
    requires Valid(a)
    ensures Good(a + b) == a + Good(b) && Pending(a + b) == Pending(b)
    ensures Text(a + b) == Decode(a) + Text(b)
  {
    hide ValidUpTo, Decode;
    ValidAppend(a, b);
    TakeDropAppend(a, b, ValidUpTo(b));
    GoodAndPending(b);
    ValidAppend(a, Good(b));
  }

  // ---- single bytes that are characters -------------------------------------------

  /** An ASCII byte occurs in an encoded text only as that character. */
  lemma {:induction false} AsciiByte(t: string, c: char)
    requires c as int <= 0x7F
    ensures (c as int) in Encode(t) <==> c in t
  {
    if t == [] {
    } else {
      AsciiByte(t[1..], c);
      assert c in t <==> c == t[0] || c in t[1..];
    }
  }
}
