/** Loading the template catalog, with the on-disk cache in front. */
module Catalog {
  import opened Wrappers
  import opened Utf8
  import opened Sorting

  /** A canonical path, as its components. */
  type Path = seq<string>

  datatype Scope = Global | Local

  datatype Template = Template(categories: seq<string>, definition: string)

  datatype TemplateFile = TemplateFile(
    provider: string, categories: seq<string>, environments: Option<string>, commands: map<string, Template>)

  datatype Entry = Entry(
    key: string, provider: string, command: string, categories: seq<string>,
    path: Path, scope: Scope, template: Template, environments: Option<string>)

  type TemplateCatalog = map<string, Entry>

  type Fingerprint = seq<(Path, nat)>

  /**
   What one load sees: the template files below the two directories (`None` when listing fails),
   their modification times where readable, and the files that read, parse and validate.
   */
  datatype World = World(
    global: Option<set<Path>>, local: Option<set<Path>>,
    mtimes: map<Path, nat>, parsed: map<Path, TemplateFile>)

  // ---- the order of paths -----------------------------------------------------------

  predicate NameLess(a: string, b: string) { LexLess(Encode(a), Encode(b)) }

  predicate PathLess(a: Path, b: Path) {
    b != [] && (a == [] || NameLess(a[0], b[0]) || (a[0] == b[0] && PathLess(a[1..], b[1..])))
  }

  /** The names agree in their first `k` bytes, and then `a` ends or has the smaller byte. */
  predicate NameSmallerAt(a: string, b: string, k: nat) { SmallerAt(Encode(a), Encode(b), k) }

  lemma NameIsFirstDifference(a: string, b: string)
    ensures NameLess(a, b) <==> exists k :: NameSmallerAt(a, b, k)
  {
    var x, y := Encode(a), Encode(b);
    LexIsFirstDifference(x, y);
    if NameLess(a, b) {
      var k: nat :| SmallerAt(x, y, k);
      assert NameSmallerAt(a, b, k);
    }
    if k: nat :| NameSmallerAt(a, b, k) {
      assert SmallerAt(x, y, k);
    }
  }

  /** The first `n` components agree, and then `a` ends or has the component with the smaller byte. */
  ghost predicate PathSmallerAt(a: Path, b: Path, n: nat) {
    n <= |a| && n < |b| && a[..n] == b[..n] && (n == |a| || exists k :: NameSmallerAt(a[n], b[n], k))
  }

  /** Paths are ordered by the first component in which they differ; a parent comes first. */
  lemma {:induction false} PathIsFirstDifference(a: Path, b: Path)
    ensures PathLess(a, b) <==> exists n :: PathSmallerAt(a, b, n)
    decreases |a|
  {
    hide NameLess, NameSmallerAt;
    if a == [] || b == [] {
      assert b != [] ==> PathSmallerAt(a, b, 0);
    } else {
      NameIsFirstDifference(a[0], b[0]);
      PathIsFirstDifference(a[1..], b[1..]);
      assert NameLess(a[0], b[0]) <==> PathSmallerAt(a, b, 0);
      if a[0] == b[0] {
        forall n: nat ensures PathSmallerAt(a[1..], b[1..], n) <==> PathSmallerAt(a, b, n + 1) {
          PathSmallerLater(a, b, n);
        }
        if n: nat :| PathSmallerAt(a, b, n) && n > 0 { assert PathSmallerAt(a[1..], b[1..], n - 1); }
      } else {
        forall n | 0 < n <= |a| && n < |b| ensures a[..n] != b[..n] {
          assert a[..n][0] == a[0] && b[..n][0] == b[0];
        }
      }
    }
  }

  lemma PathSmallerLater(a: Path, b: Path, n: nat)
    requires a != [] && b != [] && a[0] == b[0]
    ensures PathSmallerAt(a[1..], b[1..], n) <==> PathSmallerAt(a, b, n + 1)
  {
    hide NameSmallerAt;
    if n < |a| && n + 1 < |b| {
      assert a[..n + 1] == [a[0]] + a[1..][..n] && b[..n + 1] == [b[0]] + b[1..][..n];
      assert a[1..][..n] == a[..n + 1][1..] && b[1..][..n] == b[..n + 1][1..];
    }
  }

  lemma {:induction false} PathIrreflexive(a: Path)
    ensures !PathLess(a, a)
  {
    if a == [] {
    } else {
      LexIrreflexive(Encode(a[0]));
      PathIrreflexive(a[1..]);
    }
  }

  lemma {:induction false} PathTrichotomy(a: Path, b: Path)
    ensures a == b || PathLess(a, b) || PathLess(b, a)
  {
    if a != [] && b != [] {
      LexTrichotomy(Encode(a[0]), Encode(b[0]));
      if Encode(a[0]) == Encode(b[0]) {
        EncodeInjective(a[0], b[0]);
        PathTrichotomy(a[1..], b[1..]);
        if a[1..] == b[1..] { assert a == [a[0]] + a[1..] && b == [b[0]] + b[1..]; }
      }
    }
  }

  lemma {:induction false} PathTransitive(a: Path, b: Path, c: Path)
    requires PathLess(a, b) && PathLess(b, c)
    ensures PathLess(a, c)
  {
    if a == [] {
    } else {
      if NameLess(a[0], b[0]) && NameLess(b[0], c[0]) {
        LexTransitive(Encode(a[0]), Encode(b[0]), Encode(c[0]));
      } else if a[0] == b[0] == c[0] {
        PathTransitive(a[1..], b[1..], c[1..]);
      }
    }
  }

  lemma PathOrder()
    ensures StrictTotal(PathLess)
  {
    forall a ensures !PathLess(a, a) { PathIrreflexive(a); }
    forall a, b ensures a == b || PathLess(a, b) || PathLess(b, a) { PathTrichotomy(a, b); }
    forall a, b, c | PathLess(a, b) && PathLess(b, c) ensures PathLess(a, c) { PathTransitive(a, b, c); }
  }

  lemma PathsCanBeSorted(paths: set<Path>)
    ensures exists xs :: SortedListOf(PathLess, xs, paths)
  {
    PathOrder();
    var xs := SortedListExists(PathLess, paths);
  }

  /** The sorted list of some paths. */
  ghost function SortedPaths(paths: set<Path>): (xs: seq<Path>)
    ensures SortedListOf(PathLess, xs, paths)
  {
    PathsCanBeSorted(paths);
    var xs :| SortedListOf(PathLess, xs, paths);
    xs
  }

  method SortPaths(paths: set<Path>) returns (xs: seq<Path>)
    ensures xs == SortedPaths(paths)
  {
    PathOrder();
    xs := Sort(PathLess, paths);
    SortedListUnique(PathLess, xs, SortedPaths(paths), paths);
  }

  // ---- one file -------------------------------------------------------------------------

  /** The categories of the file, then those of the command that are not listed yet. */
  function MergeCategories(base: seq<string>, extra: seq<string>): seq<string>
    decreases |extra|
  {
    if extra == [] then base
    else MergeCategories(if extra[0] in base then base else base + [extra[0]], extra[1..])
  }

  /**
   Nothing is lost, nothing is added twice, the categories of the file stay in front, and the others
   come in the order in which they first appear.
   */
  lemma {:induction false} MergedCategories(base: seq<string>, extra: seq<string>)
    ensures var merged := MergeCategories(base, extra);
            && base <= merged
            && (forall c :: c in merged <==> c in base || c in extra)
            && (forall i, j :: 0 <= i < j < |merged| && |base| <= j ==> merged[i] != merged[j])
            && (forall i, j :: |base| <= i < j < |merged| ==> AppearsFirst(extra, merged[i], merged[j]))
    decreases |extra|
  {
    if extra == [] {
    } else {
      MergedInOrder(base, extra);
      var next := if extra[0] in base then base else base + [extra[0]];
      MergedCategories(next, extra[1..]);
      assert forall c :: c in extra <==> c == extra[0] || c in extra[1..];
      var merged := MergeCategories(next, extra[1..]);
      assert next <= merged;
      forall i, j | 0 <= i < j < |merged| && |base| <= j ensures merged[i] != merged[j] {
        if j < |next| { assert merged[j] == extra[0] && merged[i] == base[i]; }
      }
    }
  }

  /** `c` stands somewhere in front of the first `d`. */
  predicate AppearsFirst(xs: seq<string>, c: string, d: string) {
    exists n :: 0 <= n < |xs| && xs[n] == d && d !in xs[..n] && c in xs[..n]
  }

  /** What is appended is new and comes in the order of first appearance. */
  ghost predicate AppendedInOrder(base: seq<string>, extra: seq<string>, merged: seq<string>) {
    && base <= merged
    && (forall i :: |base| <= i < |merged| ==> merged[i] in extra && merged[i] !in merged[..i])
    && (forall i, j :: |base| <= i < j < |merged| ==> AppearsFirst(extra, merged[i], merged[j]))
  }

  lemma {:induction false} MergedInOrder(base: seq<string>, extra: seq<string>)
    ensures AppendedInOrder(base, extra, MergeCategories(base, extra))
    decreases |extra|
  {
    hide AppendedInOrder, AppearsFirst;
    if extra == [] {
      NothingAppended(base);
    } else {
      var first, rest := extra[0], extra[1..];
      var next := if first in base then base else base + [first];
      MergedInOrder(next, rest);
      assert extra == [first] + rest;
      OneMoreInFront(base, first, rest, MergeCategories(next, rest));
    }
  }

  lemma NothingAppended(base: seq<string>)
    ensures AppendedInOrder(base, [], base)
  {
  }

  lemma OneMoreInFront(base: seq<string>, first: string, rest: seq<string>, merged: seq<string>)
    requires AppendedInOrder(if first in base then base else base + [first], rest, merged)
    ensures AppendedInOrder(base, [first] + rest, merged)
  {
    hide AppearsFirst;
    var next := if first in base then base else base + [first];
    forall i | |base| <= i < |merged| ensures merged[i] in [first] + rest && merged[i] !in merged[..i] {
      if i < |next| { assert merged[i] == next[i] == first && merged[..i] == base; }
    }
    forall i, j | |base| <= i < j < |merged| ensures AppearsFirst([first] + rest, merged[i], merged[j]) {
      assert first in next && (forall c :: c in next ==> c in merged[..j]);
      assert i < |next| ==> merged[i] == next[i] == first;
      LaterAppears(first, rest, merged[i], merged[j], i < |next|);
    }
  }

  lemma LaterAppears(first: string, rest: seq<string>, c: string, d: string, isFirst: bool)
    requires d != first && d in rest && if isFirst then c == first else AppearsFirst(rest, c, d)
    ensures AppearsFirst([first] + rest, c, d)
  {
    var xs := [first] + rest;
    var n := FirstPlace(rest, d);
    assert xs[..n + 1] == [first] + rest[..n] && xs[n + 1] == d;
    if !isFirst {
      var m :| 0 <= m < |rest| && rest[m] == d && d !in rest[..m] && c in rest[..m];
      assert forall i :: 0 <= i < n ==> rest[..n][i] == rest[i];
      assert forall i :: 0 <= i < m ==> rest[..m][i] == rest[i];
    }
  }

  lemma {:induction false} FirstPlace(xs: seq<string>, d: string) returns (n: nat)
    requires d in xs
    ensures n < |xs| && xs[n] == d && d !in xs[..n]
  {
    if xs[0] == d {
      n := 0;
    } else {
      n := FirstPlace(xs[1..], d);
      n := n + 1;
      assert xs[..n] == [xs[0]] + xs[1..][..n - 1];
    }
  }

  function KeyOf(file: TemplateFile, command: string): string { file.provider + "." + command }

  lemma KeysDiffer(file: TemplateFile, c: string, d: string)
    requires KeyOf(file, c) == KeyOf(file, d)
    ensures c == d
  {
    var n := |file.provider| + 1;
    assert KeyOf(file, c)[n..] == c && KeyOf(file, d)[n..] == d;
  }

  function EntryOf(path: Path, scope: Scope, file: TemplateFile, command: string): Entry
    requires command in file.commands
  {
    var template := file.commands[command];
    Entry(KeyOf(file, command), file.provider, command, MergeCategories(file.categories, template.categories),
          path, scope, template, file.environments)
  }

  /** The entries that a file defines. */
  ghost function FileEntries(path: Path, scope: Scope, file: TemplateFile): TemplateCatalog {
    assert forall c, d :: KeyOf(file, c) == KeyOf(file, d) ==> c == d by {
      forall c, d | KeyOf(file, c) == KeyOf(file, d) ensures c == d { KeysDiffer(file, c, d); }
    }
    map c | c in file.commands :: KeyOf(file, c) := EntryOf(path, scope, file, c)
  }

  /** `after` is `before` with the entries of some commands of a file put in. */
  ghost predicate Upserted(before: TemplateCatalog, path: Path, scope: Scope, file: TemplateFile,
                           commands: set<string>, after: TemplateCatalog)
    requires commands <= file.commands.Keys
  {
    && (forall c :: c in commands ==>
          KeyOf(file, c) in after && after[KeyOf(file, c)] == EntryOf(path, scope, file, c))
    && (forall k :: (forall c :: c in commands ==> KeyOf(file, c) != k) ==>
          (k in after <==> k in before) && (k in after ==> after[k] == before[k]))
  }

  lemma AllUpserted(before: TemplateCatalog, path: Path, scope: Scope, file: TemplateFile, after: TemplateCatalog)
    requires Upserted(before, path, scope, file, file.commands.Keys, after)
    ensures after == before + FileEntries(path, scope, file)
  {
    var all := before + FileEntries(path, scope, file);
    forall k ensures (k in after <==> k in all) && (k in after && k in all ==> after[k] == all[k]) {
      if c :| c in file.commands && KeyOf(file, c) == k {
        assert KeyOf(file, c) in FileEntries(path, scope, file);
      } else {
        assert k !in FileEntries(path, scope, file);
      }
    }
  }

  method MergeInto(base: seq<string>, extra: seq<string>) returns (categories: seq<string>)
    ensures categories == MergeCategories(base, extra)
  {
    categories := base;
    for i := 0 to |extra|
      invariant MergeCategories(categories, extra[i..]) == MergeCategories(base, extra)
    {
      assert extra[i..][1..] == extra[i + 1..];
      if extra[i] !in categories {
        categories := categories + [extra[i]];
      }
    }
  }

  /** Loads one file; false when it cannot be read, parsed or validated. */
  method LoadFileIntoCatalog(w: World, path: Path, scope: Scope, catalog: TemplateCatalog)
    returns (ok: bool, catalog': TemplateCatalog)
    ensures ok == (path in w.parsed)
    ensures ok ==> catalog' == catalog + FileEntries(path, scope, w.parsed[path])
  {
    catalog' := catalog;
    if path !in w.parsed {
      return false, catalog';
    }
    ok := true;
    var file := w.parsed[path];
    var todo := file.commands.Keys;
    while todo != {}
      invariant todo <= file.commands.Keys
      invariant Upserted(catalog, path, scope, file, file.commands.Keys - todo, catalog')
      decreases todo
    {
      var command :| command in todo;
      var template := file.commands[command];
      var categories := MergeInto(file.categories, template.categories);
      var key := KeyOf(file, command);
      forall c | c in file.commands.Keys - todo ensures KeyOf(file, c) != key {
        if KeyOf(file, c) == key { KeysDiffer(file, c, command); }
      }
      catalog' := catalog'[key := Entry(key, file.provider, command, categories, path, scope, template,
                                        file.environments)];
      todo := todo - {command};
    }
    assert file.commands.Keys - {} == file.commands.Keys;
    AllUpserted(catalog, path, scope, file, catalog');
  }

  // ---- all files --------------------------------------------------------------------------

  /** Files in loading order. */
  type Files = seq<(Path, Scope)>

  function InScope(paths: seq<Path>, scope: Scope): Files {
    seq(|paths|, i requires 0 <= i < |paths| => (paths[i], scope))
  }

  /** Sorted global files, then sorted local files. */
  ghost function LoadOrder(global: set<Path>, local: set<Path>): Files {
    InScope(SortedPaths(global), Global) + InScope(SortedPaths(local), Local)
  }

  ghost function LoadFiles(w: World, files: Files, catalog: TemplateCatalog): Option<TemplateCatalog>
    decreases |files|
  {
    if files == [] then Some(catalog)
    else
      var (path, scope) := files[0];
      if path !in w.parsed then None
      else LoadFiles(w, files[1..], catalog + FileEntries(path, scope, w.parsed[path]))
  }

  /** What a fresh build of the catalog returns. */
  ghost function Build(w: World): Option<TemplateCatalog> {
    if w.global.None? || w.local.None? then None
    else LoadFiles(w, LoadOrder(w.global.value, w.local.value), map[])
  }

  method LoadScope(w: World, paths: seq<Path>, scope: Scope, catalog: TemplateCatalog)
    returns (catalog': Option<TemplateCatalog>)
    ensures catalog' == LoadFiles(w, InScope(paths, scope), catalog)
  {
    var files := InScope(paths, scope);
    var current := catalog;
    for i := 0 to |paths|
      invariant LoadFiles(w, files[i..], current) == LoadFiles(w, files, catalog)
    {
      assert files[i..][0] == (paths[i], scope) && files[i..][1..] == files[i + 1..];
      var ok, next := LoadFileIntoCatalog(w, paths[i], scope, current);
      if !ok {
        return None;
      }
      current := next;
    }
    return Some(current);
  }

  lemma {:induction false} LoadFilesAppend(w: World, a: Files, b: Files, catalog: TemplateCatalog)
    ensures LoadFiles(w, a + b, catalog)
            == match LoadFiles(w, a, catalog) case None => None case Some(c) => LoadFiles(w, b, c)
    decreases |a|
  {
    if a == [] {
      assert a + b == b;
    } else {
      assert (a + b)[1..] == a[1..] + b;
      var (path, scope) := a[0];
      if path in w.parsed { LoadFilesAppend(w, a[1..], b, catalog + FileEntries(path, scope, w.parsed[path])); }
    }
  }

  method LoadCatalogFromDirs(w: World) returns (catalog: Option<TemplateCatalog>)
    ensures catalog == Build(w)
  {
    if w.global.None? {
      return None;
    }
    var global := SortPaths(w.global.value);
    var loaded := LoadScope(w, global, Global, map[]);
    if loaded.None? || w.local.None? {
      if w.local.Some? {
        LoadFilesAppend(w, InScope(global, Global), InScope(SortedPaths(w.local.value), Local), map[]);
      }
      return None;
    }
    var local := SortPaths(w.local.value);
    catalog := LoadScope(w, local, Local, loaded.value);
    LoadFilesAppend(w, InScope(global, Global), InScope(local, Local), map[]);
  }

  /** `k` is defined by the file `f`. */
  ghost predicate Defines(w: World, f: (Path, Scope), k: string) {
    f.0 in w.parsed && k in FileEntries(f.0, f.1, w.parsed[f.0])
  }

  /** File `i` is the last that defines the key. */
  ghost predicate LastFor(w: World, files: Files, k: string, i: nat) {
    i < |files| && Defines(w, files[i], k) && forall j :: i < j < |files| ==> !Defines(w, files[j], k)
  }

  lemma {:induction false} NoFileKeeps(w: World, files: Files, before: TemplateCatalog, k: string)
    requires LoadFiles(w, files, before).Some?
    requires forall i :: 0 <= i < |files| ==> !Defines(w, files[i], k)
    ensures var after := LoadFiles(w, files, before).value;
            (k in after <==> k in before) && (k in after ==> after[k] == before[k])
    decreases |files|
  {
    if files == [] {
    } else {
      var f := files[0];
      NoFileKeeps(w, files[1..], before + FileEntries(f.0, f.1, w.parsed[f.0]), k);
    }
  }

  /** A key has the entry of the last file that defines it, whatever was there before. */
  lemma {:induction false} LastFileWins(w: World, files: Files, before: TemplateCatalog, k: string, i: nat)
    requires LoadFiles(w, files, before).Some? && LastFor(w, files, k, i)
    ensures var after := LoadFiles(w, files, before).value;
            k in after && after[k] == FileEntries(files[i].0, files[i].1, w.parsed[files[i].0])[k]
    decreases |files|
  {
    var f, rest := files[0], files[1..];
    var next := before + FileEntries(f.0, f.1, w.parsed[f.0]);
    assert forall j :: 0 <= j < |rest| ==> rest[j] == files[j + 1];
    if i == 0 {
      NoFileKeeps(w, rest, next, k);
    } else {
      LastFileWins(w, rest, next, k, i - 1);
    }
  }

  /** In a built catalog each key comes from the last defining file, local files after global ones. */
  lemma BuildTakesLastFile(w: World, k: string)
    requires Build(w).Some?
    ensures var files := LoadOrder(w.global.value, w.local.value);
            && (k in Build(w).value <==> exists i: nat :: LastFor(w, files, k, i))
            && (forall i: nat :: LastFor(w, files, k, i) ==>
                  Build(w).value[k] == FileEntries(files[i].0, files[i].1, w.parsed[files[i].0])[k])
  {
    var files := LoadOrder(w.global.value, w.local.value);
    forall i: nat | LastFor(w, files, k, i)
      ensures k in Build(w).value
              && Build(w).value[k] == FileEntries(files[i].0, files[i].1, w.parsed[files[i].0])[k]
    {
      LastFileWins(w, files, map[], k, i);
    }
    if i :| 0 <= i < |files| && Defines(w, files[i], k) {
      var last := LastDefining(w, files, k, i);
      assert LastFor(w, files, k, last);
    } else {
      NoFileKeeps(w, files, map[], k);
    }
  }

  lemma {:induction false} LastDefining(w: World, files: Files, k: string, i: nat) returns (last: nat)
    requires i < |files| && Defines(w, files[i], k)
    ensures last < |files| && Defines(w, files[last], k)
    ensures forall j :: last < j < |files| ==> !Defines(w, files[j], k)
    decreases |files| - i
  {
    if j :| i < j < |files| && Defines(w, files[j], k) {
      last := LastDefining(w, files, k, j);
    } else {
      last := i;
    }
  }

  /**
   Every entry of a build describes itself: it comes from a command of a file in its scope, under the
   dotted name of provider and command, and no other file that defines this name is a local file when
   this one is global, or comes later in path order within the same scope.
   */
  lemma {:induction false} BuiltEntry(w: World, k: string)
    requires Build(w).Some? && k in Build(w).value
    ensures var e := Build(w).value[k];
            && e.key == k == e.provider + "." + e.command
            && e.path in (if e.scope == Global then w.global.value else w.local.value)
            && e.path in w.parsed && e.command in w.parsed[e.path].commands
            && var file := w.parsed[e.path];
               && e.provider == file.provider && e.environments == file.environments
               && e.template == file.commands[e.command]
               && file.categories <= e.categories
               && (forall c :: c in e.categories <==> c in file.categories || c in e.template.categories)
    ensures var e := Build(w).value[k];
            forall q, d ::
              q in w.global.value + w.local.value && q in w.parsed && d in w.parsed[q].commands
              && w.parsed[q].provider + "." + d == k ==>
                && (e.scope == Global ==> q !in w.local.value && (q == e.path || PathLess(q, e.path)))
                && (e.scope == Local && q in w.local.value ==> q == e.path || PathLess(q, e.path))
  {
    hide Build, PathLess, FileEntries, LoadOrder;
    assert w.global.Some? && w.local.Some? by { BuildsIff(w); }
    var files := LoadOrder(w.global.value, w.local.value);
    BuildTakesLastFile(w, k);
    var i: nat :| LastFor(w, files, k, i);
    var p, scope := files[i].0, files[i].1;
    EntryDescribes(p, scope, w.parsed[p], k);
    assert (p, scope) in files;
    LoadOrderHas(w.global.value, w.local.value, p, scope);
    forall q, d |
      q in w.global.value + w.local.value && q in w.parsed && d in w.parsed[q].commands
      && w.parsed[q].provider + "." + d == k
      ensures scope == Global ==> q !in w.local.value && (q == p || PathLess(q, p))
      ensures scope == Local && q in w.local.value ==> q == p || PathLess(q, p)
    {
      if q in w.global.value { NotLater(w, k, i, q, Global, d); }
      if q in w.local.value { NotLater(w, k, i, q, Local, d); }
    }
  }

  /** A file that defines the key too does not come behind the last one that does. */
  lemma NotLater(w: World, k: string, i: nat, q: Path, scope: Scope, d: string)
    requires w.global.Some? && w.local.Some? && LastFor(w, LoadOrder(w.global.value, w.local.value), k, i)
    requires q in (if scope == Global then w.global.value else w.local.value)
    requires q in w.parsed && d in w.parsed[q].commands && w.parsed[q].provider + "." + d == k
    ensures var f := LoadOrder(w.global.value, w.local.value)[i];
            (scope == f.1 && (q == f.0 || PathLess(q, f.0))) || (scope == Global && f.1 == Local)
  {
    hide PathLess, LoadOrder;
    var files := LoadOrder(w.global.value, w.local.value);
    LoadOrderHas(w.global.value, w.local.value, q, scope);
    var j :| 0 <= j < |files| && files[j] == (q, scope);
    assert KeyOf(w.parsed[q], d) in FileEntries(q, scope, w.parsed[q]);
    assert Defines(w, files[j], k);
    EarlierFile(w.global.value, w.local.value, j, i);
  }

  lemma EntryDescribes(p: Path, scope: Scope, file: TemplateFile, k: string)
    requires k in FileEntries(p, scope, file)
    ensures var e := FileEntries(p, scope, file)[k];
            && e.key == k == e.provider + "." + e.command && e.path == p && e.scope == scope
            && e.command in file.commands && e.provider == file.provider && e.environments == file.environments
            && e.template == file.commands[e.command]
            && file.categories <= e.categories
            && (forall c :: c in e.categories <==> c in file.categories || c in e.template.categories)
  {
    var e := FileEntries(p, scope, file)[k];
    MergedCategories(file.categories, file.commands[e.command].categories);
  }

  /** An earlier file in loading order is global before local, or earlier in path order. */
  lemma EarlierFile(global: set<Path>, local: set<Path>, j: nat, i: nat)
    requires j <= i < |LoadOrder(global, local)|
    ensures var f, g := LoadOrder(global, local)[j], LoadOrder(global, local)[i];
            (f.1 == g.1 && (f.0 == g.0 || PathLess(f.0, g.0))) || (f.1 == Global && g.1 == Local)
  {
    hide PathLess;
    var xs, ys := SortedPaths(global), SortedPaths(local);
    var n := |xs|;
    assert j < i < n ==> PathLess(xs[j], xs[i]);
    assert n <= j < i ==> PathLess(ys[j - n], ys[i - n]);
  }

  /** Every command of every file has an entry. */
  lemma EveryCommandBuilt(w: World, p: Path, command: string)
    requires Build(w).Some? && p in w.global.value + w.local.value
    ensures p in w.parsed
    ensures command in w.parsed[p].commands ==> w.parsed[p].provider + "." + command in Build(w).value
  {
    hide Build;
    BuildsIff(w);
    if command in w.parsed[p].commands {
      var k, scope := w.parsed[p].provider + "." + command, if p in w.global.value then Global else Local;
      var files := LoadOrder(w.global.value, w.local.value);
      LoadOrderHas(w.global.value, w.local.value, p, scope);
      var i :| 0 <= i < |files| && files[i] == (p, scope);
      assert KeyOf(w.parsed[p], command) in FileEntries(p, scope, w.parsed[p]);
      var last := LastDefining(w, files, k, i);
      assert LastFor(w, files, k, last);
      BuildTakesLastFile(w, k);
    }
  }

  // ---- a build, file by file ---------------------------------------------------------------

  /** Both directories can be listed, and every file reads, parses and validates. */
  ghost predicate AllParse(w: World) {
    w.global.Some? && w.local.Some? && forall p :: p in w.global.value + w.local.value ==> p in w.parsed
  }

  lemma {:induction false} LoadsIff(w: World, files: Files, before: TemplateCatalog)
    ensures LoadFiles(w, files, before).Some? <==> forall i :: 0 <= i < |files| ==> files[i].0 in w.parsed
    decreases |files|
  {
    if files == [] {
    } else {
      var f, rest := files[0], files[1..];
      assert forall i :: 0 <= i < |rest| ==> rest[i] == files[i + 1];
      if f.0 in w.parsed {
        LoadsIff(w, rest, before + FileEntries(f.0, f.1, w.parsed[f.0]));
        assert (forall i :: 0 <= i < |files| ==> files[i].0 in w.parsed)
               <==> (forall i :: 0 <= i < |rest| ==> rest[i].0 in w.parsed);
      }
    }
  }

  lemma LoadOrderHas(global: set<Path>, local: set<Path>, p: Path, scope: Scope)
    ensures (p, scope) in LoadOrder(global, local) <==> p in if scope == Global then global else local
  {
    var g, l := SortedPaths(global), SortedPaths(local);
    InScopeHas(g, Global, p, scope);
    InScopeHas(l, Local, p, scope);
    assert p in g <==> p in global;
    assert p in l <==> p in local;
  }

  lemma InScopeHas(paths: seq<Path>, scope: Scope, p: Path, other: Scope)
    ensures (p, other) in InScope(paths, scope) <==> p in paths && other == scope
  {
    var files := InScope(paths, scope);
    if p in paths && other == scope {
      var i :| 0 <= i < |paths| && paths[i] == p;
      assert files[i] == (p, other);
    }
  }

  /** A build succeeds exactly when everything can be listed and parsed. */
  lemma BuildsIff(w: World)
    ensures Build(w).Some? <==> AllParse(w)
  {
    if w.global.Some? && w.local.Some? {
      var files := LoadOrder(w.global.value, w.local.value);
      LoadsIff(w, files, map[]);
      if AllParse(w) {
        forall i | 0 <= i < |files| ensures files[i].0 in w.parsed {
          assert (files[i].0, files[i].1) in files;
          LoadOrderHas(w.global.value, w.local.value, files[i].0, files[i].1);
        }
      } else {
        var p :| p in w.global.value + w.local.value && p !in w.parsed;
        LoadOrderHas(w.global.value, w.local.value, p, if p in w.global.value then Global else Local);
      }
    }
  }

  /** The entry that the last file in loading order gives to a key. */
  ghost function LastEntry(w: World, k: string): Option<Entry>
    requires AllParse(w)
  {
    var files := LoadOrder(w.global.value, w.local.value);
    if exists i: nat :: LastFor(w, files, k, i) then
      var i: nat :| LastFor(w, files, k, i);
      Some(FileEntries(files[i].0, files[i].1, w.parsed[files[i].0])[k])
    else None
  }

  lemma BuildIsLast(w: World, k: string)
    requires AllParse(w)
    ensures Build(w).Some?
    ensures LastEntry(w, k) == if k in Build(w).value then Some(Build(w).value[k]) else None
  {
    BuildsIff(w);
    BuildTakesLastFile(w, k);
  }

  /** Two builds are equal exactly when the last files give every key the same entry. */
  lemma BuildsEqualIff(w1: World, w2: World)
    requires AllParse(w1) && AllParse(w2)
    ensures Build(w1) == Build(w2) <==> forall k :: LastEntry(w1, k) == LastEntry(w2, k)
  {
    hide LastEntry, Build;
    BuildsIff(w1);
    BuildsIff(w2);
    forall k
      ensures LastEntry(w1, k) == if k in Build(w1).value then Some(Build(w1).value[k]) else None
      ensures LastEntry(w2, k) == if k in Build(w2).value then Some(Build(w2).value[k]) else None
    {
      BuildIsLast(w1, k);
      BuildIsLast(w2, k);
    }
    if forall k :: LastEntry(w1, k) == LastEntry(w2, k) {
      EqualByEntries(w1, w2, Build(w1).value, Build(w2).value);
    }
  }

  lemma EqualByEntries(w1: World, w2: World, a: TemplateCatalog, b: TemplateCatalog)
    requires AllParse(w1) && AllParse(w2) && forall k :: LastEntry(w1, k) == LastEntry(w2, k)
    requires forall k :: LastEntry(w1, k) == if k in a then Some(a[k]) else None
    requires forall k :: LastEntry(w2, k) == if k in b then Some(b[k]) else None
    ensures a == b
  {
    hide LastEntry, AllParse;
    forall k ensures (k in a <==> k in b) && (k in a ==> a[k] == b[k]) {
      assert LastEntry(w1, k) == LastEntry(w2, k);
    }
  }

  /** Files that parse alike load alike. */
  lemma {:induction false} LoadsAlike(w1: World, w2: World, files: Files, before: TemplateCatalog)
    requires forall i :: 0 <= i < |files| ==> files[i].0 in w1.parsed && files[i].0 in w2.parsed
                                              && w1.parsed[files[i].0] == w2.parsed[files[i].0]
    ensures LoadFiles(w1, files, before) == LoadFiles(w2, files, before)
    decreases |files|
  {
    if files == [] {
    } else {
      var f := files[0];
      LoadsAlike(w1, w2, files[1..], before + FileEntries(f.0, f.1, w1.parsed[f.0]));
    }
  }
}
