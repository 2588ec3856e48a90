/** The operations of Rust's `str` that the modelled code relies on, on sequences. */
module Strings {
  import opened Wrappers

  // ---- substrings --------------------------------------------------------

  predicate At<T(==)>(s: seq<T>, p: seq<T>, i: int) {
    0 <= i && i + |p| <= |s| && s[i..i + |p|] == p
  }

  ghost predicate Occurs<T>(p: seq<T>, s: seq<T>) {
    exists i :: At(s, p, i)
  }

  /** `str::find`: the first position of `p` in `s`. */
  function Find<T(==)>(s: seq<T>, p: seq<T>): (r: Option<nat>)
    ensures r.Some? ==> r.value + |p| <= |s|
  {
    if |s| < |p| then None
    else if s[..|p|] == p then Some(0)
    else
      match Find(s[1..], p)
      case None => None
      case Some(i) => Some(i + 1)
  }

  lemma {:induction false} FindSpec<T>(s: seq<T>, p: seq<T>)
    ensures var r := Find(s, p);
            && (r.Some? ==> At(s, p, r.value) && forall j :: 0 <= j < r.value ==> !At(s, p, j))
            && (r.None? ==> forall j :: !At(s, p, j))
  {
    if |p| <= |s| && s[..|p|] != p {
      FindSpec(s[1..], p);
      forall j | 0 < j ensures At(s, p, j) <==> At(s[1..], p, j - 1) { AtDrop(s, 1, p, j - 1); }
      assert !At(s, p, 0);
    }
  }

  /** `Find` is determined by being the first position. */
  lemma FindIs<T>(s: seq<T>, p: seq<T>, i: nat)
    requires At(s, p, i)
    requires forall j :: 0 <= j < i ==> !At(s, p, j)
    ensures Find(s, p) == Some(i)
  {
    FindSpec(s, p);
  }

  lemma FindNone<T>(s: seq<T>, p: seq<T>)
    requires forall j :: !At(s, p, j)
    ensures Find(s, p) == None
  {
    FindSpec(s, p);
  }

  lemma AtAppend<T>(a: seq<T>, b: seq<T>, p: seq<T>, i: int)
    requires i + |p| <= |a|
    ensures At(a + b, p, i) <==> At(a, p, i)
  {
    if 0 <= i { assert (a + b)[i..i + |p|] == a[i..i + |p|]; }
  }

  lemma AtDrop<T>(s: seq<T>, n: nat, p: seq<T>, i: int)
    requires n <= |s| && 0 <= i
    ensures At(s[n..], p, i) <==> At(s, p, n + i)
  {
    if n + i + |p| <= |s| { assert s[n..][i..i + |p|] == s[n + i..n + i + |p|]; }
  }

  lemma AtTake<T>(s: seq<T>, n: nat, p: seq<T>, i: int)
    requires n <= |s|
    ensures At(s[..n], p, i) <==> At(s, p, i) && i + |p| <= n
  {
    if 0 <= i && i + |p| <= n { assert s[..n][i..i + |p|] == s[i..i + |p|]; }
  }

  predicate StartsWith<T(==)>(s: seq<T>, p: seq<T>) {
    |p| <= |s| && s[..|p|] == p
  }

  predicate EndsWith<T(==)>(s: seq<T>, p: seq<T>) {
    |p| <= |s| && s[|s| - |p|..] == p
  }

  lemma Regroup<T>(a: seq<T>, b: seq<T>, c: seq<T>)
    ensures a + b + c == a + (b + c)
  {
  }

  // ---- joining and splitting ---------------------------------------------

  /** `join`: the parts with `sep` between neighbours. */
  function Join<T>(parts: seq<seq<T>>, sep: seq<T>): seq<T> {
    if parts == [] then []
    else if |parts| == 1 then parts[0]
    else parts[0] + sep + Join(parts[1..], sep)
  }

  /** Splitting at every `c`; the inverse of joining parts that are free of `c`. */
  function Split<T(==)>(s: seq<T>, c: T): (parts: seq<seq<T>>)
    ensures parts != []
    ensures forall p :: p in parts ==> c !in p && forall x :: x in p ==> x in s
    ensures Join(parts, [c]) == s
  {
    FindChar(s, c);
    match Find(s, [c])
    case None => [s]
    case Some(i) =>
      var rest := Split(s[i + 1..], c);
      var parts := [s[..i]] + rest;
      assert parts[1..] == rest;
      assert s == s[..i] + [c] + s[i + 1..];
      parts
  }

  lemma FindChar<T>(s: seq<T>, c: T)
    ensures match Find(s, [c])
            case None => c !in s
            case Some(i) => s[i] == c && c !in s[..i]
  {
    FindSpec(s, [c]);
    forall i | 0 <= i < |s| ensures At(s, [c], i) <==> s[i] == c {
      assert s[i..i + 1] == [s[i]];
    }
  }

  /** The first `c` behind a stretch without `c`. */
  lemma FindFirst<T>(a: seq<T>, c: T, rest: seq<T>)
    requires c !in a
    ensures Find(a + [c] + rest, [c]) == Some(|a|)
  {
    var s := a + [c] + rest;
    forall i | 0 <= i <= |a| ensures At(s, [c], i) <==> i == |a| {
      assert s[i..i + 1] == [s[i]];
    }
    FindIs(s, [c], |a|);
  }

  /** Splitting gives back the parts that were joined. */
  lemma {:induction false} SplitJoin<T>(parts: seq<seq<T>>, c: T)
    requires parts != [] && forall i :: 0 <= i < |parts| ==> c !in parts[i]
    ensures Split(Join(parts, [c]), c) == parts
    decreases |parts|
  {
    var s := Join(parts, [c]);
    if |parts| == 1 {
      FindChar(s, c);
    } else {
      var rest := Join(parts[1..], [c]);
      FindFirst(parts[0], c, rest);
      assert s[..|parts[0]|] == parts[0] && s[|parts[0]| + 1..] == rest;
      SplitJoin(parts[1..], c);
    }
  }

  function Flatten<T>(parts: seq<seq<T>>): seq<T> {
    if parts == [] then [] else parts[0] + Flatten(parts[1..])
  }

  function Map<S, T>(f: S -> T, xs: seq<S>): (ys: seq<T>)
    ensures |ys| == |xs| && forall i :: 0 <= i < |xs| ==> ys[i] == f(xs[i])
  {
    seq(|xs|, i requires 0 <= i < |xs| => f(xs[i]))
  }

  // ---- trimming ------------------------------------------------------------

  /** The Unicode property White_Space, which `char::is_whitespace` tests. */
  predicate IsWhitespace(c: char) {
    || '\t' <= c <= '\r'
    || c == ' ' || c == '\U{0085}' || c == '\U{00A0}' || c == '\U{1680}'
    || '\U{2000}' <= c <= '\U{200A}'
    || c == '\U{2028}' || c == '\U{2029}' || c == '\U{202F}' || c == '\U{205F}' || c == '\U{3000}'
  }

  function TrimStart(s: string, ws: char -> bool): (t: string)
    ensures t == [] || !ws(t[0])
    ensures |t| <= |s|
  {
    if s != [] && ws(s[0]) then TrimStart(s[1..], ws) else s
  }

  function TrimEnd(s: string, ws: char -> bool): (t: string)
    ensures t == [] || !ws(t[|t| - 1])
    ensures |t| <= |s|
  {
    if s != [] && ws(s[|s| - 1]) then TrimEnd(s[..|s| - 1], ws) else s
  }

  lemma {:induction false} TrimStartIsSuffix(s: string, ws: char -> bool)
    ensures var t := TrimStart(s, ws); t == s[|s| - |t|..]
    decreases |s|
  {
    if s == [] {
    } else if ws(s[0]) {
      TrimStartIsSuffix(s[1..], ws);
    }
  }

  lemma {:induction false} TrimEndIsPrefix(s: string, ws: char -> bool)
    ensures TrimEnd(s, ws) <= s
    decreases |s|
  {
    if s == [] {
    } else if ws(s[|s| - 1]) {
      TrimEndIsPrefix(s[..|s| - 1], ws);
    }
  }

  /** `str::trim` for the white space `ws`. */
  function TrimBy(s: string, ws: char -> bool): (t: string) {
    TrimEnd(TrimStart(s, ws), ws)
  }

  function Trim(s: string): string {
    TrimBy(s, IsWhitespace)
  }

  lemma TrimNothing(s: string, ws: char -> bool)
    requires s != [] ==> !ws(s[0]) && !ws(s[|s| - 1])
    ensures TrimBy(s, ws) == s
  {
  }

  lemma {:induction false} TrimStartAround(before: string, s: string, ws: char -> bool)
    requires forall c :: c in before ==> ws(c)
    requires s != [] && !ws(s[0])
    ensures TrimStart(before + s, ws) == s
  {
    if before == [] {
      assert before + s == s;
    } else {
      assert before[0] in before;
      assert (before + s)[1..] == before[1..] + s;
      TrimStartAround(before[1..], s, ws);
    }
  }

  lemma {:induction false} TrimEndAround(s: string, after: string, ws: char -> bool)
    requires forall c :: c in after ==> ws(c)
    requires s != [] ==> !ws(s[|s| - 1])
    ensures TrimEnd(s + after, ws) == s
  {
    if after == [] {
      assert s + after == s;
    } else {
      var n := |after| - 1;
      assert after[n] in after;
      assert (s + after)[..|s + after| - 1] == s + after[..n];
      TrimEndAround(s, after[..n], ws);
    }
  }

  /** Trimming leaves what stands between the outer white space. */
  lemma TrimAround(before: string, s: string, after: string, ws: char -> bool)
    requires forall c :: c in before || c in after ==> ws(c)
    requires s != [] && !ws(s[0]) && !ws(s[|s| - 1])
    ensures TrimBy(before + s + after, ws) == s
  {
    assert before + s + after == before + (s + after);
    TrimStartAround(before, s + after, ws);
    TrimEndAround(s, after, ws);
  }

  lemma TakeDropAppend<T>(a: seq<T>, b: seq<T>, n: nat)
    requires n <= |b|
    ensures (a + b)[..|a| + n] == a + b[..n] && (a + b)[|a| + n..] == b[n..]
  {
  }

  // ---- ASCII case ------------------------------------------------------------

  function LowerChar(c: char): char {
    if 'A' <= c <= 'Z' then c + ' ' else c
  }

  /** `to_ascii_lowercase`. */
  function Lower(s: string): (t: string)
    ensures |t| == |s|
  {
    seq(|s|, i requires 0 <= i < |s| => LowerChar(s[i]))
  }

  // ---- decimal numbers ---------------------------------------------------------

  predicate IsDigit(c: char) { '0' <= c <= '9' }

  predicate AllDigits(s: string) { forall i :: 0 <= i < |s| ==> IsDigit(s[i]) }

  function Decimal(n: nat): (s: string)
    ensures s != "" && AllDigits(s)
  {
    var last := [('0' as int + n % 10) as char];
    if n < 10 then last else Decimal(n / 10) + last
  }

  function DigitsValue(s: string): nat
    requires AllDigits(s)
  {
    if s == "" then 0 else 10 * DigitsValue(s[..|s| - 1]) + (s[|s| - 1] as int - '0' as int)
  }

  lemma {:induction false} DecimalValue(n: nat)
    ensures DigitsValue(Decimal(n)) == n
  {
    var s := Decimal(n);
    if n >= 10 {
      DecimalValue(n / 10);
      assert s[..|s| - 1] == Decimal(n / 10);
    } else {
      assert s[..|s| - 1] == "";
    }
  }
}
