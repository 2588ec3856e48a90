/** Where the catalog cache is coherent, and edits after which it is not. */
module CacheCoherence {
  import opened Wrappers
  import opened Strings
  import opened Catalog
  import opened TemplateCache

  // ---- fixed, disjoint directories ------------------------------------------------------

  /** A path belongs to one directory, the same one in all worlds. */
  ghost predicate FixedDirectories(worlds: iset<World>, scopeOf: Path -> Scope) {
    forall w :: w in worlds && w.global.Some? && w.local.Some? ==>
                  && (forall p :: p in w.global.value ==> scopeOf(p) == Global)
                  && (forall p :: p in w.local.value ==> scopeOf(p) == Local)
  }

  /** The file at `p` fails in both worlds, or parses alike. */
  ghost predicate ParsesAlike(w1: World, w2: World, p: Path) {
    (p in w1.parsed <==> p in w2.parsed) && (p in w1.parsed ==> w1.parsed[p] == w2.parsed[p])
  }

  /** Files with the same stamps have the same contents, as far as parsing tells. */
  ghost predicate StampsFixContents(worlds: iset<World>) {
    forall w1, w2 :: w1 in worlds && w2 in worlds && SameStamps(w1, w2) ==>
                       forall p :: p in w1.global.value + w1.local.value ==> ParsesAlike(w1, w2, p)
  }

  lemma SameDirectories(w1: World, w2: World, scopeOf: Path -> Scope)
    requires FixedDirectories(iset{w1, w2}, scopeOf) && SameStamps(w1, w2)
    ensures w1.global == w2.global && w1.local == w2.local
  {
    forall p
      ensures p in w1.global.value <==> p in w2.global.value
      ensures p in w1.local.value <==> p in w2.local.value
    {
      StampsOf(w1, w2, p);
    }
    assert w1.global.value == w2.global.value && w1.local.value == w2.local.value;
  }

  lemma AlikeBuilds(w1: World, w2: World)
    requires w1.global == w2.global && w1.local == w2.local && AllParse(w1)
    requires forall p :: p in w1.global.value + w1.local.value ==> ParsesAlike(w1, w2, p)
    ensures Build(w1) == Build(w2)
  {
    var files := LoadOrder(w1.global.value, w1.local.value);
    forall i | 0 <= i < |files| ensures files[i].0 in w1.parsed && ParsesAlike(w1, w2, files[i].0) {
      assert (files[i].0, files[i].1) in files;
      LoadOrderHas(w1.global.value, w1.local.value, files[i].0, files[i].1);
    }
    LoadsAlike(w1, w2, files, map[]);
  }

  /** Fixed, disjoint directories and contents that the stamps fix make every load as good as a fresh build. */
  lemma {:induction false} FixedDirectoriesCohere(worlds: iset<World>, scopeOf: Path -> Scope)
    requires FixedDirectories(worlds, scopeOf) && StampsFixContents(worlds)
    ensures Coherent(worlds)
  {
    hide Build, Coherent, Stamps, AllParse;
    forall w1, w2 |
      w1 in worlds && w2 in worlds && Build(w1).Some? && FingerprintOf(w2) == FingerprintOf(w1)
      ensures Build(w2) == Build(w1)
    {
      BuildsIff(w1);
      PairAgrees(w1, w2);
      SameStampsSameFingerprint(w1, w2);
      SameDirectories(w1, w2, scopeOf);
      AlikeBuilds(w1, w2);
    }
    CoherentWhenBuildsAgree(worlds);
  }

  // ---- edits that the fingerprint does not show ----------------------------------------------

  /** Two loads, the second of which returns what the first built and not what a fresh build returns. */
  ghost predicate GoesStale(w1: World, w2: World) {
    && FingerprintOf(w2) == FingerprintOf(w1)
    && ResultAt(Missing, [(w1, true), (w2, true)], 1) == Build(w1)
    && Build(w1) != Build(w2)
  }

  lemma StaleWhenDifferent(w1: World, w2: World)
    requires AllParse(w1) && SameStamps(w1, w2)
    ensures GoesStale(w1, w2) <==> Build(w1) != Build(w2)
  {
    hide Build, Stamps, AllParse;
    BuildsIff(w1);
    PairAgrees(w1, w2);
    SameStampsSameFingerprint(w1, w2);
    StaleLoad(w1, w2);
  }

  /** Some file defines a command. */
  ghost predicate DefinesAny(w: World)
    requires AllParse(w)
  {
    exists p :: p in w.global.value + w.local.value && w.parsed[p].commands != map[]
  }

  /** The same files, as local files too: what a load sees when the local directory is the global one. */
  function Shared(w: World): World {
    w.(local := w.global)
  }

  lemma SharedLooksAlike(w: World)
    requires AllParse(w) && w.local == Some({})
    ensures SameStamps(w, Shared(w)) && AllParse(Shared(w))
  {
    assert w.global.value + w.local.value == w.global.value == w.global.value + w.global.value;
    assert forall p :: Mtime(Shared(w), p) == Mtime(w, p);
  }

  /** The scope of an entry tells from which directory its file was loaded. */
  lemma ScopeOfEntry(w: World, k: string)
    requires AllParse(w) && LastEntry(w, k).Some?
    ensures w.local.value == {} ==> LastEntry(w, k).value.scope == Global
    ensures w.local == w.global ==> LastEntry(w, k).value.scope == Local
  {
    var files := LoadOrder(w.global.value, w.local.value);
    var i: nat :| LastFor(w, files, k, i)
      && LastEntry(w, k) == Some(FileEntries(files[i].0, files[i].1, w.parsed[files[i].0])[k]);
    var (p, scope) := files[i];
    assert (p, scope) in files;
    LoadOrderHas(w.global.value, w.local.value, p, scope);
    ScopeInFile(p, scope, w.parsed[p], k);
    if w.local == w.global && scope == Global {
      LaterLocalFile(w, k, i);
    }
  }

  lemma ScopeInFile(p: Path, scope: Scope, file: TemplateFile, k: string)
    requires k in FileEntries(p, scope, file)
    ensures FileEntries(p, scope, file)[k].scope == scope
  {
  }

  /** A global file of a shared directory is loaded again, as a local one. */
  lemma LaterLocalFile(w: World, k: string, i: nat)
    requires AllParse(w) && w.local == w.global
    requires i < |LoadOrder(w.global.value, w.local.value)|
    requires var files := LoadOrder(w.global.value, w.local.value); files[i].1 == Global && Defines(w, files[i], k)
    ensures !LastFor(w, LoadOrder(w.global.value, w.local.value), k, i)
  {
    var paths := SortedPaths(w.global.value);
    var files := LoadOrder(w.global.value, w.local.value);
    assert i < |paths| && files[i] == (paths[i], Global);
    var j := |paths| + i;
    assert files[j] == (paths[i], Local);
    assert Defines(w, files[j], k);
  }

  lemma NoCommandsNoEntries(w: World, k: string)
    requires AllParse(w)
    ensures !DefinesAny(w) ==> LastEntry(w, k) == None
  {
    if LastEntry(w, k).Some? {
      var files := LoadOrder(w.global.value, w.local.value);
      var i: nat :| LastFor(w, files, k, i);
      assert (files[i].0, files[i].1) in files;
      LoadOrderHas(w.global.value, w.local.value, files[i].0, files[i].1);
      assert k in FileEntries(files[i].0, files[i].1, w.parsed[files[i].0]);
    }
  }

  lemma DefinedHasEntry(w: World, p: Path, c: string)
    requires AllParse(w) && p in w.global.value + w.local.value && c in w.parsed[p].commands
    ensures LastEntry(w, KeyOf(w.parsed[p], c)).Some?
  {
    var k := KeyOf(w.parsed[p], c);
    var scope := if p in w.global.value then Global else Local;
    var files := LoadOrder(w.global.value, w.local.value);
    LoadOrderHas(w.global.value, w.local.value, p, scope);
    var i :| 0 <= i < |files| && files[i] == (p, scope);
    assert k in FileEntries(p, scope, w.parsed[p]);
    var last := LastDefining(w, files, k, i);
    assert LastFor(w, files, k, last);
  }

  lemma CommandsHaveEntries(w: World) returns (k: string)
    requires AllParse(w) && DefinesAny(w)
    ensures LastEntry(w, k).Some?
  {
    var p :| p in w.global.value + w.local.value && w.parsed[p].commands != map[];
    var c :| c in w.parsed[p].commands;
    k := KeyOf(w.parsed[p], c);
    DefinedHasEntry(w, p, c);
  }

  /**
   A load that shares the global directory as its local one, after a load without local templates, looks
   the same and goes stale exactly when there are commands at all: their entries should be local now.
   */
  lemma SharedDirectoryGoesStale(w: World)
    requires AllParse(w) && w.local == Some({})
    ensures GoesStale(w, Shared(w)) <==> DefinesAny(w)
  {
    hide Build, Stamps, LastEntry;
    var w2 := Shared(w);
    SharedLooksAlike(w);
    StaleWhenDifferent(w, w2);
    BuildsEqualIff(w, w2);
    if DefinesAny(w) {
      var k := CommandsHaveEntries(w);
      ScopeOfEntry(w, k);
      if LastEntry(w2, k).Some? { ScopeOfEntry(w2, k); }
    } else {
      forall k ensures LastEntry(w, k) == LastEntry(w2, k) {
        NoCommandsNoEntries(w, k);
        NoCommandsNoEntries(w2, k);
      }
    }
  }

  lemma {:induction false} LongerThanAll(keys: set<string>) returns (n: nat)
    ensures forall k :: k in keys ==> |k| < n
    decreases keys
  {
    if keys == {} {
      n := 0;
    } else {
      var k :| k in keys;
      var m := LongerThanAll(keys - {k});
      n := m + |k| + 1;
      forall x | x in keys ensures |x| < n { assert x == k || x in keys - {k}; }
    }
  }

  /** The same files with the same modification times, but with `file` at `p`. */
  function Edited(w: World, p: Path, file: TemplateFile): World {
    w.(parsed := w.parsed[p := file])
  }

  /** Any template file can be edited under one modification time so that the next load goes stale. */
  lemma EditUnderOneStampGoesStale(w: World, p: Path)
    requires AllParse(w) && p in w.global.value + w.local.value
    ensures exists file :: GoesStale(w, Edited(w, p, file))
  {
    hide Build, Stamps, LastEntry;
    BuildsIff(w);
    var n := LongerThanAll(Build(w).value.Keys);
    var file := NewFile(n);
    var w2 := Edited(w, p, file);
    var k := KeyOf(file, "");
    EditedLooksAlike(w, p, file);
    StaleWhenDifferent(w, w2);
    BuildIsLast(w, k);
    DefinedHasEntry(w2, p, "");
    BuildIsLast(w2, k);
    assert GoesStale(w, w2);
  }

  /** A file with one command under a long provider name. */
  function NewFile(n: nat): (file: TemplateFile)
    ensures "" in file.commands && |KeyOf(file, "")| > n
  {
    TemplateFile(seq(n, _ => 'p'), [], None, map["" := Template([], "")])
  }

  lemma EditedLooksAlike(w: World, p: Path, file: TemplateFile)
    requires AllParse(w)
    ensures SameStamps(w, Edited(w, p, file)) && AllParse(Edited(w, p, file))
  {
    assert forall q :: Mtime(Edited(w, p, file), q) == Mtime(w, q);
  }
}
