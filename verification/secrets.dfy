/** Building the nested secrets context from dotted keys, and what is noted for redaction. */
module Secrets {
  import opened Wrappers
  import opened Strings
  import opened Json
  import opened Redact

  type Path = seq<string>
  type Fields = map<string, Json>

  function NonEmptyParts(parts: seq<string>): Path {
    if parts == [] then []
    else (if parts[0] == "" then [] else [parts[0]]) + NonEmptyParts(parts[1..])
  }

  /** The non-empty parts between the dots. */
  function PathOf(dottedKey: string): Path {
    NonEmptyParts(Split(dottedKey, '.'))
  }

  /** Dots only separate: the path of a dotted key is the names it was made of, empty ones left out. */
  lemma {:induction false} PathOfJoined(names: seq<string>)
    requires names != [] && forall i :: 0 <= i < |names| ==> '.' !in names[i]
    ensures PathOf(Join(names, ".")) == NonEmptyParts(names)
  {
    hide Join, Split, NonEmptyParts;
    assert "." == ['.'];
    SplitJoin(names, '.');
  }

  /** The empty names, and they alone, are left out; the others keep their order. */
  lemma {:induction false} NamesKept(a: seq<string>, b: seq<string>)
    ensures NonEmptyParts(a + b) == NonEmptyParts(a) + NonEmptyParts(b)
    ensures forall name :: NonEmptyParts([name]) == if name == "" then [] else [name]
    decreases |a|
  {
    forall name ensures NonEmptyParts([name]) == if name == "" then [] else [name] { OneName(name); }
    if a == [] {
      assert a + b == b;
    } else {
      assert (a + b)[1..] == a[1..] + b;
      NamesKept(a[1..], b);
      Regroup(if a[0] == "" then [] else [a[0]], NonEmptyParts(a[1..]), NonEmptyParts(b));
    }
  }

  lemma OneName(name: string)
    ensures NonEmptyParts([name]) == if name == "" then [] else [name]
  {
    assert [name][1..] == [];
  }

  // ---- places in a nested map ----------------------------------------------------------

  predicate ObjectsAlong(root: Fields, path: Path)
    decreases |path|
  {
    path != [] ==> path[0] in root && root[path[0]].Object? && ObjectsAlong(root[path[0]].fields, path[1..])
  }

  function GetAt(root: Fields, path: Path): Fields
    requires ObjectsAlong(root, path)
    decreases |path|
  {
    if path == [] then root else GetAt(root[path[0]].fields, path[1..])
  }

  function SetAt(root: Fields, path: Path, fields: Fields): Fields
    requires ObjectsAlong(root, path)
    decreases |path|
  {
    if path == [] then fields
    else root[path[0] := Object(SetAt(root[path[0]].fields, path[1..], fields))]
  }

  /** The object behind a name: an empty one when there is none, or something else. */
  function ObjectAt(root: Fields, part: string): Fields {
    if part in root && root[part].Object? then root[part].fields else map[]
  }

  /** The value at the end of a path, and objects on the way. */
  function InsertPath(root: Fields, path: Path, value: Json): Fields
    decreases |path|
  {
    if path == [] then root
    else if |path| == 1 then root[path[0] := value]
    else root[path[0] := Object(InsertPath(ObjectAt(root, path[0]), path[1..], value))]
  }

  function Lookup(root: Fields, path: Path): Option<Json>
    requires path != []
    decreases |path|
  {
    if path[0] !in root then None
    else if |path| == 1 then Some(root[path[0]])
    else if root[path[0]].Object? then Lookup(root[path[0]].fields, path[1..])
    else None
  }

  lemma {:induction false} GetSet(root: Fields, path: Path, fields: Fields)
    requires ObjectsAlong(root, path)
    ensures ObjectsAlong(SetAt(root, path, fields), path) && GetAt(SetAt(root, path, fields), path) == fields
    decreases |path|
  {
    if path == [] {
    } else {
      GetSet(root[path[0]].fields, path[1..], fields);
    }
  }

  lemma {:induction false} ExtendObjects(root: Fields, path: Path, part: string)
    requires ObjectsAlong(root, path) && part in GetAt(root, path) && GetAt(root, path)[part].Object?
    ensures ObjectsAlong(root, path + [part])
    ensures GetAt(root, path + [part]) == GetAt(root, path)[part].fields
    decreases |path|
  {
    if path == [] {
      assert [] + [part] == [part] && [part][1..] == [];
    } else {
      assert (path + [part])[0] == path[0] && (path + [part])[1..] == path[1..] + [part];
      ExtendObjects(root[path[0]].fields, path[1..], part);
    }
  }

  /** Inserting behind a prefix is inserting into the map found there. */
  lemma {:induction false} InsertBehind(root: Fields, prefix: Path, rest: Path, fields: Fields, value: Json)
    requires ObjectsAlong(root, prefix) && rest != []
    ensures InsertPath(SetAt(root, prefix, fields), prefix + rest, value)
            == SetAt(root, prefix, InsertPath(fields, rest, value))
    decreases |prefix|
  {
    if prefix == [] {
      assert [] + rest == rest;
    } else {
      assert (prefix + rest)[0] == prefix[0] && (prefix + rest)[1..] == prefix[1..] + rest;
      InsertBehind(root[prefix[0]].fields, prefix[1..], rest, fields, value);
    }
  }

  lemma {:induction false} SetSame(root: Fields, path: Path)
    requires ObjectsAlong(root, path)
    ensures SetAt(root, path, GetAt(root, path)) == root
    decreases |path|
  {
    if path == [] {
    } else {
      SetSame(root[path[0]].fields, path[1..]);
    }
  }

  /** Making the child an object beforehand changes nothing of the insertion. */
  lemma ChildFirst(fields: Fields, part: string, rest: Path, value: Json)
    requires rest != []
    ensures InsertPath(fields[part := Object(ObjectAt(fields, part))], [part] + rest, value)
            == InsertPath(fields, [part] + rest, value)
  {
    assert ([part] + rest)[1..] == rest;
  }

  // ---- the context under construction -----------------------------------------------------

  class SecretsContext {
    var root: Fields

    constructor ()
      ensures root == map[]
    {
      root := map[];
    }

    /** The walk keeps a place in the nested map: the parts that lead to it. */
    method InsertDottedKey(dottedKey: string, value: Json)
      modifies this
      ensures root == InsertPath(old(root), PathOf(dottedKey), value)
    {
      var parts := PathOf(dottedKey);
      if |parts| == 0 {
        return;
      }
      var index := 0;
      while index < |parts| - 1
        invariant 0 <= index < |parts|
        invariant ObjectsAlong(root, parts[..index])
        invariant InsertPath(root, parts, value) == InsertPath(old(root), parts, value)
      {
        EnsureObject(parts, index, value);
        index := index + 1;
      }
      var current := GetAt(root, parts[..index]);
      InsertLast(root, parts, value);
      root := SetAt(root, parts[..index], current[parts[index] := value]);
    }

    /** One step down, on the way to inserting `value` at the end of `parts`. */
    method EnsureObject(parts: Path, index: nat, ghost value: Json)
      requires index < |parts| - 1 && ObjectsAlong(root, parts[..index])
      modifies this
      ensures ObjectsAlong(root, parts[..index + 1])
      ensures InsertPath(root, parts, value) == InsertPath(old(root), parts, value)
    {
      var current := GetAt(root, parts[..index]);
      var part := parts[index];
      if part !in current {
        current := current[part := Object(map[])];
      }
      if !current[part].Object? {
        current := current[part := Object(map[])];
      }
      ghost var fields := GetAt(root, parts[..index]);
      assert current == fields[part := Object(ObjectAt(fields, part))];
      StepKeepsInsertion(root, parts, index, value);
      root := SetAt(root, parts[..index], current);
    }
  }

  lemma StepKeepsInsertion(root: Fields, parts: Path, index: nat, value: Json)
    requires index < |parts| - 1 && ObjectsAlong(root, parts[..index])
    ensures var prefix, part := parts[..index], parts[index];
            var fields := GetAt(root, prefix);
            var next := SetAt(root, prefix, fields[part := Object(ObjectAt(fields, part))]);
            && ObjectsAlong(next, parts[..index + 1])
            && InsertPath(next, parts, value) == InsertPath(root, parts, value)
  {
    var prefix, part, rest := parts[..index], parts[index], parts[index + 1..];
    var fields := GetAt(root, prefix);
    var child := fields[part := Object(ObjectAt(fields, part))];
    assert parts == prefix + ([part] + rest) && parts[..index + 1] == prefix + [part];
    GetSet(root, prefix, child);
    ExtendObjects(SetAt(root, prefix, child), prefix, part);
    InsertBehind(root, prefix, [part] + rest, child, value);
    InsertBehind(root, prefix, [part] + rest, fields, value);
    SetSame(root, prefix);
    ChildFirst(fields, part, rest, value);
  }

  lemma InsertLast(root: Fields, parts: Path, value: Json)
    requires parts != [] && ObjectsAlong(root, parts[..|parts| - 1])
    ensures var prefix, part := parts[..|parts| - 1], parts[|parts| - 1];
            InsertPath(root, parts, value) == SetAt(root, prefix, GetAt(root, prefix)[part := value])
  {
    var prefix, part := parts[..|parts| - 1], parts[|parts| - 1];
    assert parts == prefix + [part];
    InsertBehind(root, prefix, [part], GetAt(root, prefix), value);
    SetSame(root, prefix);
  }

  /** A key of dots alone names no place: inserting at it changes nothing. */
  lemma {:induction false} DotsNameNothing(root: Fields, n: nat, value: Json)
    ensures InsertPath(root, PathOf(seq(n, i requires 0 <= i < n => '.')), value) == root
    decreases n
  {
    var key := seq(n, i requires 0 <= i < n => '.');
    DotsSplit(key);
  }

  lemma {:induction false} DotsSplit(key: string)
    requires forall i :: 0 <= i < |key| ==> key[i] == '.'
    ensures NonEmptyParts(Split(key, '.')) == []
    decreases |key|
  {
    FindChar(key, '.');
    if key != "" {
      assert key[0] == '.';
      DotsSplit(key[1..]);
      assert key[..1][0] == '.' && Find(key, ['.']) == Some(0);
      assert [key[..0]] + Split(key[1..], '.') == Split(key, '.');
    }
  }

  // ---- what one insertion does ---------------------------------------------------------------

  /** Neither path leads through the other. */
  predicate Incomparable(p: Path, q: Path) { !(p <= q) && !(q <= p) }

  lemma {:induction false} LookupInserted(root: Fields, path: Path, value: Json)
    requires path != []
    ensures Lookup(InsertPath(root, path, value), path) == Some(value)
    decreases |path|
  {
    if |path| > 1 { LookupInserted(ObjectAt(root, path[0]), path[1..], value); }
  }

  lemma TailsIncomparable(p: Path, q: Path)
    requires Incomparable(p, q) && p[0] == q[0]
    ensures |p| > 1 && |q| > 1 && Incomparable(p[1..], q[1..])
  {
    assert p == [p[0]] + p[1..] && q == [q[0]] + q[1..];
  }

  /** What lies at incomparable paths stays as it was. */
  lemma {:induction false} LookupElsewhere(root: Fields, p: Path, value: Json, q: Path)
    requires Incomparable(p, q)
    ensures Lookup(InsertPath(root, p, value), q) == Lookup(root, q)
    decreases |p|
  {
    if p[0] == q[0] {
      TailsIncomparable(p, q);
      LookupElsewhere(ObjectAt(root, p[0]), p[1..], value, q[1..]);
    }
  }

  /** What an insertion puts behind the first part of its path. */
  function Inserted(inner: Fields, path: Path, value: Json): Json
    requires path != []
  {
    if |path| == 1 then value else Object(InsertPath(inner, path[1..], value))
  }

  lemma InsertIsUpdate(root: Fields, path: Path, value: Json)
    requires path != []
    ensures InsertPath(root, path, value) == root[path[0] := Inserted(ObjectAt(root, path[0]), path, value)]
  {
  }

  lemma SameHead(root: Fields, p: Path, v: Json, q: Path, w: Json)
    requires |p| > 1 && |q| > 1 && p[0] == q[0]
    ensures InsertPath(InsertPath(root, p, v), q, w)
            == root[p[0] := Object(InsertPath(InsertPath(ObjectAt(root, p[0]), p[1..], v), q[1..], w))]
  {
    hide InsertPath;
    InsertIsUpdate(root, p, v);
    InsertIsUpdate(InsertPath(root, p, v), q, w);
  }

  lemma {:induction false} InsertionsCommute(root: Fields, p: Path, v: Json, q: Path, w: Json)
    requires Incomparable(p, q)
    ensures InsertPath(InsertPath(root, p, v), q, w) == InsertPath(InsertPath(root, q, w), p, v)
    decreases |p|
  {
    hide InsertPath;
    if p[0] == q[0] {
      TailsIncomparable(p, q);
      SameHead(root, p, v, q, w);
      SameHead(root, q, w, p, v);
      InsertionsCommute(ObjectAt(root, p[0]), p[1..], v, q[1..], w);
    } else {
      InsertIsUpdate(root, p, v);
      InsertIsUpdate(root, q, w);
      InsertIsUpdate(InsertPath(root, p, v), q, w);
      InsertIsUpdate(InsertPath(root, q, w), p, v);
    }
  }

  /** Behind a string there is nothing. */
  lemma {:induction false} NothingBehindString(root: Fields, p: Path, q: Path)
    requires p != [] && p < q && Lookup(root, p).Some? && Lookup(root, p).value.String?
    ensures Lookup(root, q) == None
    decreases |p|
  {
    if |p| > 1 { NothingBehindString(root[p[0]].fields, p[1..], q[1..]); }
  }

  /** The order of two string insertions is invisible exactly when the paths do not lead through each other. */
  lemma CommuteIff(root: Fields, p: Path, v: string, q: Path, w: string)
    requires p != [] && q != []
    ensures InsertPath(InsertPath(root, p, String(v)), q, String(w))
            == InsertPath(InsertPath(root, q, String(w)), p, String(v))
            <==> Incomparable(p, q) || (p == q && v == w)
  {
    if Incomparable(p, q) {
      InsertionsCommute(root, p, String(v), q, String(w));
    } else {
      var pq := InsertPath(InsertPath(root, p, String(v)), q, String(w));
      var qp := InsertPath(InsertPath(root, q, String(w)), p, String(v));
      LookupInserted(InsertPath(root, p, String(v)), q, String(w));
      LookupInserted(InsertPath(root, q, String(w)), p, String(v));
      assert p <= q && |p| == |q| ==> p == q;
      if p < q {
        NothingBehindString(qp, p, q);
      } else if q < p {
        NothingBehindString(pq, q, p);
      }
    }
  }

  // ---- whole lists of keys ---------------------------------------------------------------------

  datatype Entry = Entry(path: Path, value: Json)

  function InsertAll(root: Fields, entries: seq<Entry>): Fields
    decreases |entries|
  {
    if entries == [] then root
    else InsertAll(InsertPath(root, entries[0].path, entries[0].value), entries[1..])
  }

  /** No path leads through another. */
  ghost predicate PrefixFree(entries: seq<Entry>) {
    forall i, j :: 0 <= i < j < |entries| ==> Incomparable(entries[i].path, entries[j].path)
  }

  lemma {:induction false} InsertAllKeeps(root: Fields, entries: seq<Entry>, q: Path, value: Json)
    requires q != [] && Lookup(root, q) == Some(value)
    requires forall i :: 0 <= i < |entries| ==>
               Incomparable(entries[i].path, q) || (entries[i].path == q && entries[i].value == value)
    ensures Lookup(InsertAll(root, entries), q) == Some(value)
    decreases |entries|
  {
    if entries == [] {
    } else {
      var e := entries[0];
      if e.path == q {
        LookupInserted(root, q, value);
      } else {
        LookupElsewhere(root, e.path, e.value, q);
      }
      InsertAllKeeps(InsertPath(root, e.path, e.value), entries[1..], q, value);
    }
  }

  /** No path leads strictly through another, and equal paths carry equal values. */
  ghost predicate Compatible(entries: seq<Entry>) {
    forall i, j :: 0 <= i < |entries| && 0 <= j < |entries| ==>
      Incomparable(entries[i].path, entries[j].path)
      || (entries[i].path == entries[j].path && entries[i].value == entries[j].value)
  }

  lemma {:induction false} EachIsFound(root: Fields, entries: seq<Entry>, i: nat)
    requires i < |entries| && entries[i].path != []
    requires forall j :: i <= j < |entries| ==>
               Incomparable(entries[j].path, entries[i].path)
               || (entries[j].path == entries[i].path && entries[j].value == entries[i].value)
    ensures Lookup(InsertAll(root, entries), entries[i].path) == Some(entries[i].value)
    decreases |entries|
  {
    var next := InsertPath(root, entries[0].path, entries[0].value);
    if i == 0 {
      LookupInserted(root, entries[0].path, entries[0].value);
      InsertAllKeeps(next, entries[1..], entries[0].path, entries[0].value);
    } else {
      EachIsFound(next, entries[1..], i - 1);
    }
  }

  ghost predicate AllFound(fields: Fields, entries: seq<Entry>)
    requires forall i :: 0 <= i < |entries| ==> entries[i].path != []
  {
    forall i :: 0 <= i < |entries| ==> Lookup(fields, entries[i].path) == Some(entries[i].value)
  }

  lemma FoundAreCompatible(fields: Fields, a: Entry, b: Entry)
    requires a.path != [] && b.path != [] && a.value.String? && b.value.String?
    requires Lookup(fields, a.path) == Some(a.value) && Lookup(fields, b.path) == Some(b.value)
    ensures Incomparable(a.path, b.path) || (a.path == b.path && a.value == b.value)
  {
    assert a.path <= b.path && |a.path| == |b.path| ==> a.path == b.path;
    assert b.path <= a.path && |a.path| == |b.path| ==> a.path == b.path;
    if a.path < b.path {
      NothingBehindString(fields, a.path, b.path);
    } else if b.path < a.path {
      NothingBehindString(fields, b.path, a.path);
    }
  }

  /**
   Strings are all found again exactly when no path leads strictly through another and equal paths carry
   equal values.
   */
  lemma AllFoundIff(root: Fields, entries: seq<Entry>)
    requires forall i :: 0 <= i < |entries| ==> entries[i].path != [] && entries[i].value.String?
    ensures AllFound(InsertAll(root, entries), entries) <==> Compatible(entries)
  {
    hide InsertAll, Lookup, Incomparable;
    var all := InsertAll(root, entries);
    if Compatible(entries) {
      forall i | 0 <= i < |entries| ensures Lookup(all, entries[i].path) == Some(entries[i].value) {
        EachIsFound(root, entries, i);
      }
    } else if AllFound(all, entries) {
      forall i, j | 0 <= i < |entries| && 0 <= j < |entries|
        ensures Incomparable(entries[i].path, entries[j].path)
                || (entries[i].path == entries[j].path && entries[i].value == entries[j].value)
      {
        FoundAreCompatible(all, entries[i], entries[j]);
      }
    }
  }

  lemma InsertFirst(root: Fields, e: Entry, rest: seq<Entry>)
    ensures InsertAll(root, [e] + rest) == InsertAll(InsertPath(root, e.path, e.value), rest)
  {
    assert ([e] + rest)[1..] == rest;
  }

  lemma {:induction false} MoveToFront(root: Fields, before: seq<Entry>, e: Entry, after: seq<Entry>)
    requires forall i :: 0 <= i < |before| ==> Incomparable(before[i].path, e.path)
    ensures InsertAll(root, before + ([e] + after)) == InsertAll(root, [e] + (before + after))
    decreases |before|
  {
    hide InsertAll, InsertPath;
    if before == [] {
      assert before + ([e] + after) == [e] + (before + after);
    } else {
      var f, rest := before[0], before[1..];
      assert before == [f] + rest;
      Regroup([f], rest, [e] + after);
      Regroup([f], rest, after);
      InsertFirst(root, f, rest + ([e] + after));
      MoveToFront(InsertPath(root, f.path, f.value), rest, e, after);
      InsertFirst(InsertPath(root, f.path, f.value), e, rest + after);
      InsertionsCommute(root, f.path, f.value, e.path, e.value);
      InsertFirst(root, e, [f] + (rest + after));
      InsertFirst(InsertPath(root, e.path, e.value), f, rest + after);
    }
  }

  /** Any order of the entries builds the same map, when no path leads through another. */
  lemma {:induction false} OrderIsInvisible(root: Fields, xs: seq<Entry>, ys: seq<Entry>)
    requires PrefixFree(xs) && PrefixFree(ys) && multiset(xs) == multiset(ys)
    ensures InsertAll(root, xs) == InsertAll(root, ys)
    decreases |xs|
  {
    hide InsertAll, InsertPath, PrefixFree;
    if xs == [] {
      assert |multiset(ys)| == 0 && ys == [];
    } else {
      var e, rest := xs[0], xs[1..];
      assert e in multiset(xs);
      var before, after := SplitAt(ys, e);
      MoveToFront(root, before, e, after);
      assert xs == [e] + rest;
      RestIsPermuted(e, rest, before, after);
      PrefixFreeTail(xs);
      OrderIsInvisible(InsertPath(root, e.path, e.value), rest, before + after);
      InsertFirst(root, e, rest);
      InsertFirst(root, e, before + after);
    }
  }

  lemma PrefixFreeTail(xs: seq<Entry>)
    requires xs != [] && PrefixFree(xs)
    ensures PrefixFree(xs[1..])
  {
  }

  lemma SplitAt(ys: seq<Entry>, e: Entry) returns (before: seq<Entry>, after: seq<Entry>)
    requires e in multiset(ys) && PrefixFree(ys)
    ensures ys == before + ([e] + after)
    ensures PrefixFree(before + after)
    ensures forall i :: 0 <= i < |before| ==> Incomparable(before[i].path, e.path)
  {
    var k :| 0 <= k < |ys| && ys[k] == e;
    before, after := ys[..k], ys[k + 1..];
    PrefixFreeWithout(ys, k);
  }

  lemma RestIsPermuted(e: Entry, rest: seq<Entry>, before: seq<Entry>, after: seq<Entry>)
    requires multiset([e] + rest) == multiset(before + ([e] + after))
    ensures multiset(rest) == multiset(before + after)
  {
    assert multiset([e] + rest) == multiset([e]) + multiset(rest);
    assert multiset(before + ([e] + after)) == multiset(before) + (multiset([e]) + multiset(after));
    assert multiset(before + after) == multiset(before) + multiset(after);
    Cancel(multiset([e]), multiset(rest), multiset(before + after));
  }

  lemma Cancel(m: multiset<Entry>, a: multiset<Entry>, b: multiset<Entry>)
    requires m + a == m + b
    ensures a == b
  {
    assert (m + a) - m == a && (m + b) - m == b;
  }

  lemma PrefixFreeWithout(ys: seq<Entry>, k: nat)
    requires PrefixFree(ys) && k < |ys|
    ensures PrefixFree(ys[..k] + ys[k + 1..])
  {
    var rest := ys[..k] + ys[k + 1..];
    forall i, j | 0 <= i < j < |rest| ensures Incomparable(rest[i].path, rest[j].path) {
      assert rest[i] == ys[if i < k then i else i + 1] && rest[j] == ys[if j < k then j else j + 1];
    }
  }

  // ---- loading the secrets of a command ---------------------------------------------------------

  /** The keys in the order in which they are loaded. */
  function KeysToLoad(declared: seq<string>, environment: seq<string>): seq<string> {
    declared + Extra(declared, environment)
  }

  /** The environment's keys that the command does not declare itself. */
  function Extra(declared: seq<string>, environment: seq<string>): seq<string> {
    if environment == [] then []
    else (if environment[0] in declared then [] else [environment[0]]) + Extra(declared, environment[1..])
  }

  /** The declared keys come first, then those of the environment that are not declared, in their order. */
  lemma {:induction false} KeysAre(declared: seq<string>, a: seq<string>, b: seq<string>)
    ensures KeysToLoad(declared, []) == declared
    ensures KeysToLoad(declared, a + b) == KeysToLoad(declared, a) + KeysToLoad(declared, b)[|declared|..]
    ensures forall k :: KeysToLoad(declared, [k]) == if k in declared then declared else declared + [k]
  {
    assert declared + [] == declared;
    forall k ensures KeysToLoad(declared, [k]) == if k in declared then declared else declared + [k] {
      OneKey(declared, k);
      assert declared + [] == declared;
    }
    ExtraAppend(declared, a, b);
    Regroup(declared, Extra(declared, a), Extra(declared, b));
  }

  lemma OneKey(declared: seq<string>, key: string)
    ensures Extra(declared, [key]) == if key in declared then [] else [key]
  {
    assert [key][1..] == [] && Extra(declared, []) == [];
  }

  lemma {:induction false} ExtraAppend(declared: seq<string>, a: seq<string>, b: seq<string>)
    ensures Extra(declared, a + b) == Extra(declared, a) + Extra(declared, b)
    decreases |a|
  {
    if a == [] {
      assert a + b == b;
    } else {
      assert (a + b)[1..] == a[1..] + b;
      ExtraAppend(declared, a[1..], b);
    }
  }

  datatype Loaded = Loaded(context: Fields, values: seq<string>)

  /** Loading `keys` on top of what is loaded: the first secret that cannot be had ends it. */
  function LoadMore<E>(loaded: Loaded, keys: seq<string>, require: string -> Result<string, E>): Result<Loaded, E>
    decreases |keys|
  {
    if keys == [] then Ok(loaded)
    else
      match require(keys[0])
      case Err(e) => Err(e)
      case Ok(secret) =>
        LoadMore(Loaded(InsertPath(loaded.context, PathOf(keys[0]), String(secret)), loaded.values + [secret]),
                 keys[1..], require)
  }

  /** Loading succeeds exactly when every key can be had; otherwise it fails as the first one that cannot. */
  lemma {:induction false} FirstFailure<E>(loaded: Loaded, keys: seq<string>, require: string -> Result<string, E>)
    ensures LoadMore(loaded, keys, require).Ok? <==> forall i :: 0 <= i < |keys| ==> require(keys[i]).Ok?
    ensures forall i :: 0 <= i < |keys| && require(keys[i]).Err? && (forall j :: 0 <= j < i ==> require(keys[j]).Ok?)
              ==> LoadMore(loaded, keys, require) == Err(require(keys[i]).error)
    decreases |keys|
  {
    if keys == [] {
    } else if require(keys[0]).Ok? {
      var secret := require(keys[0]).value;
      var next := Loaded(InsertPath(loaded.context, PathOf(keys[0]), String(secret)), loaded.values + [secret]);
      FirstFailure(next, keys[1..], require);
      assert forall i :: 0 < i < |keys| ==> keys[i] == keys[1..][i - 1];
    }
  }

  method LoadSecrets<E>(declared: seq<string>, environments: Option<seq<string>>, require: string -> Result<string, E>)
    returns (r: Result<Loaded, E>)
    ensures r == LoadMore(Loaded(map[], []),
                          KeysToLoad(declared, if environments.Some? then environments.value else []), require)
  {
    var context := new SecretsContext();
    var secretValues: seq<string> := [];
    ghost var extra := Extra(declared, if environments.Some? then environments.value else []);
    ghost var all := LoadMore(Loaded(map[], []), declared + extra, require);
    for i := 0 to |declared|
      invariant fresh(context)
      invariant LoadMore(Loaded(context.root, secretValues), declared[i..] + extra, require) == all
    {
      assert (declared[i..] + extra)[0] == declared[i];
      assert (declared[i..] + extra)[1..] == declared[i + 1..] + extra;
      var secret := require(declared[i]);
      if secret.Err? {
        return Err(secret.error);
      }
      context.InsertDottedKey(declared[i], String(secret.value));
      secretValues := secretValues + [secret.value];
    }
    assert declared[|declared|..] + extra == extra;
    if environments.Some? {
      var keys := environments.value;
      for i := 0 to |keys|
        invariant fresh(context)
        invariant LoadMore(Loaded(context.root, secretValues), Extra(declared, keys[i..]), require) == all
      {
        ExtraStep(declared, keys, i);
        if keys[i] !in declared {
          var secret := require(keys[i]);
          if secret.Err? {
            return Err(secret.error);
          }
          context.InsertDottedKey(keys[i], String(secret.value));
          secretValues := secretValues + [secret.value];
        }
      }
    }
    return Ok(Loaded(context.root, secretValues));
  }

  lemma ExtraStep(declared: seq<string>, keys: seq<string>, i: nat)
    requires i < |keys|
    ensures var extra := Extra(declared, keys[i..]);
            if keys[i] in declared then extra == Extra(declared, keys[i + 1..])
            else extra != [] && extra[0] == keys[i] && extra[1..] == Extra(declared, keys[i + 1..])
  {
    assert keys[i..][1..] == keys[i + 1..];
  }

  /** The context is built from the loaded secrets, each under its own key. */
  lemma {:induction false} LoadedEntries<E>(loaded: Loaded, keys: seq<string>, require: string -> Result<string, E>)
    returns (secrets: seq<string>)
    requires LoadMore(loaded, keys, require).Ok?
    ensures |secrets| == |keys| && forall i :: 0 <= i < |keys| ==> require(keys[i]) == Ok(secrets[i])
    ensures LoadMore(loaded, keys, require).value
            == Loaded(InsertAll(loaded.context, Entries(keys, secrets)), loaded.values + secrets)
    decreases |keys|
  {
    if keys == [] {
      secrets := [];
      assert loaded.values + [] == loaded.values;
    } else {
      var secret := require(keys[0]).value;
      var next := Loaded(InsertPath(loaded.context, PathOf(keys[0]), String(secret)), loaded.values + [secret]);
      var more := LoadedEntries(next, keys[1..], require);
      secrets := [secret] + more;
      assert Entries(keys, secrets)[1..] == Entries(keys[1..], more);
      assert loaded.values + [secret] + more == loaded.values + secrets;
    }
  }

  function Entries(keys: seq<string>, secrets: seq<string>): (entries: seq<Entry>)
    requires |keys| == |secrets|
    ensures |entries| == |keys|
  {
    seq(|keys|, i requires 0 <= i < |keys| => Entry(PathOf(keys[i]), String(secrets[i])))
  }

  // ---- every secret in the context is noted for redaction ------------------------------------------

  ghost predicate HasLeaf(value: Json, text: string) {
    match value
    case String(t) => t == text
    case Array(items) => exists i :: 0 <= i < |items| && HasLeaf(items[i], text)
    case Object(fields) => exists k :: k in fields && HasLeaf(fields[k], text)
    case _ => false
  }

  lemma {:induction false} LeavesAfterInsert(root: Fields, path: Path, value: string, text: string)
    requires HasLeaf(Object(InsertPath(root, path, String(value))), text)
    ensures text == value || HasLeaf(Object(root), text)
    decreases |path|
  {
    if path == [] {
    } else {
      var inner := ObjectAt(root, path[0]);
      InsertIsUpdate(root, path, String(value));
      var next := InsertPath(root, path, String(value));
      var k :| k in next && HasLeaf(next[k], text);
      if k != path[0] {
        assert HasLeaf(root[k], text);
      } else if |path| > 1 {
        LeavesAfterInsert(inner, path[1..], value, text);
        if HasLeaf(Object(inner), text) && path[0] in root && root[path[0]].Object? {
          assert root[path[0]] == Object(inner);
        }
      }
    }
  }

  lemma {:induction false} LeavesAreNoted<E>(
      loaded: Loaded, keys: seq<string>, require: string -> Result<string, E>, text: string)
    requires HasLeaf(Object(loaded.context), text) ==> text in loaded.values
    requires LoadMore(loaded, keys, require).Ok?
    ensures var after := LoadMore(loaded, keys, require).value;
            HasLeaf(Object(after.context), text) ==> text in after.values
    decreases |keys|
  {
    if keys == [] {
    } else {
      var secret := require(keys[0]).value;
      var next := Loaded(InsertPath(loaded.context, PathOf(keys[0]), String(secret)), loaded.values + [secret]);
      if HasLeaf(Object(next.context), text) {
        LeavesAfterInsert(loaded.context, PathOf(keys[0]), secret, text);
      }
      LeavesAreNoted(next, keys[1..], require, text);
    }
  }

  /**
   * No secret that a template can reach survives redaction: what stands in the loaded context occurs in
   * no text that a redactor made from the noted values, and possibly others, has passed.
   */
  lemma ReachableSecretsAreRedacted<E>(
      keys: seq<string>, require: string -> Result<string, E>, redactor: Redactor, noted: set<string>,
      secret: string, output: string)
    requires var r := LoadMore(Loaded(map[], []), keys, require);
             && r.Ok? && HasLeaf(Object(r.value.context), secret)
             && forall v :: v in r.value.values ==> v in noted
    requires redactor.For(noted) && redactor.Valid()
    requires secret != "" && Apart(secret)
    ensures !Occurs(secret, RedactAll(redactor.secrets, output))
  {
    LeavesAreNoted(Loaded(map[], []), keys, require, secret);
    assert secret in VariantsOf(secret);
    assert secret in Variants(noted);
    RedactComplete(redactor.secrets, output, secret);
  }
}
