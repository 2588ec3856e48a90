/** The on-disk catalog cache, and when loads through it agree with fresh builds. */
module TemplateCache {
  import opened Wrappers
  import opened Sorting
  import opened Catalog

  const CACHE_VERSION := 2

  // ---- fingerprints ---------------------------------------------------------------------

  function Mtime(w: World, path: Path): nat {
    if path in w.mtimes then w.mtimes[path] else 0
  }

  predicate StampLess(a: (Path, nat), b: (Path, nat)) {
    PathLess(a.0, b.0) || (a.0 == b.0 && a.1 < b.1)
  }

  lemma StampOrder()
    ensures StrictTotal(StampLess)
  {
    PathOrder();
    forall a, b, c | StampLess(a, b) && StampLess(b, c) ensures StampLess(a, c) {
      if PathLess(a.0, b.0) && PathLess(b.0, c.0) { PathTransitive(a.0, b.0, c.0); }
    }
  }

  /** All template files with their modification times. */
  function Stamps(w: World): set<(Path, nat)>
    requires w.global.Some? && w.local.Some?
  {
    set p | p in w.global.value + w.local.value :: (p, Mtime(w, p))
  }

  lemma StampsCanBeSorted(stamps: set<(Path, nat)>)
    ensures exists xs :: SortedListOf(StampLess, xs, stamps)
  {
    StampOrder();
    var xs := SortedListExists(StampLess, stamps);
  }

  /** The stamps in path order; `None` when a directory cannot be listed. */
  ghost function FingerprintOf(w: World): Option<Fingerprint> {
    if w.global.None? || w.local.None? then None
    else
      StampsCanBeSorted(Stamps(w));
      var xs :| SortedListOf(StampLess, xs, Stamps(w));
      Some(xs)
  }

  /**
   Equal fingerprints mean the same files with the same modification times, where a time that cannot be
   had counts as 0, and nothing else.
   */
  lemma SameFingerprint(w1: World, w2: World)
    requires FingerprintOf(w1).Some? && FingerprintOf(w2).Some?
    ensures FingerprintOf(w1) == FingerprintOf(w2)
            <==> && w1.global.value + w1.local.value == w2.global.value + w2.local.value
                 && forall p :: p in w1.global.value + w1.local.value ==>
                      (if p in w1.mtimes then w1.mtimes[p] else 0) == (if p in w2.mtimes then w2.mtimes[p] else 0)
  {
    SameFingerprintStamps(w1, w2);
    SameStampsMeans(w1, w2);
  }

  lemma StampIn(w: World, p: Path, time: nat)
    requires w.global.Some? && w.local.Some?
    ensures (p, time) in Stamps(w)
            <==> p in w.global.value + w.local.value && time == (if p in w.mtimes then w.mtimes[p] else 0)
  {
  }

  lemma SameStampsMeans(w1: World, w2: World)
    requires w1.global.Some? && w1.local.Some? && w2.global.Some? && w2.local.Some?
    ensures Stamps(w1) == Stamps(w2)
            <==> && w1.global.value + w1.local.value == w2.global.value + w2.local.value
                 && forall p :: p in w1.global.value + w1.local.value ==>
                      (if p in w1.mtimes then w1.mtimes[p] else 0) == (if p in w2.mtimes then w2.mtimes[p] else 0)
  {
    hide Stamps;
    var files1, files2 := w1.global.value + w1.local.value, w2.global.value + w2.local.value;
    if Stamps(w1) == Stamps(w2) {
      forall p
        ensures p in files1 <==> p in files2
        ensures p in files1 ==>
                  (if p in w1.mtimes then w1.mtimes[p] else 0) == (if p in w2.mtimes then w2.mtimes[p] else 0)
      {
        StampsOf(w1, w2, p);
      }
      assert files1 == files2;
    }
    if files1 == files2 && forall p :: p in files1 ==>
         (if p in w1.mtimes then w1.mtimes[p] else 0) == (if p in w2.mtimes then w2.mtimes[p] else 0) {
      forall e ensures e in Stamps(w1) <==> e in Stamps(w2) {
        StampIn(w1, e.0, e.1);
        StampIn(w2, e.0, e.1);
      }
      assert Stamps(w1) == Stamps(w2);
    }
  }

  lemma StampsOf(w1: World, w2: World, p: Path)
    requires w1.global.Some? && w1.local.Some? && w2.global.Some? && w2.local.Some?
    requires Stamps(w1) == Stamps(w2)
    ensures p in w1.global.value + w1.local.value <==> p in w2.global.value + w2.local.value
    ensures p in w1.global.value + w1.local.value ==>
              (if p in w1.mtimes then w1.mtimes[p] else 0) == (if p in w2.mtimes then w2.mtimes[p] else 0)
  {
    hide Stamps;
    var t1 := if p in w1.mtimes then w1.mtimes[p] else 0;
    var t2 := if p in w2.mtimes then w2.mtimes[p] else 0;
    StampIn(w1, p, t1);
    StampIn(w2, p, t1);
    StampIn(w1, p, t2);
    StampIn(w2, p, t2);
  }

  lemma SameFingerprintStamps(w1: World, w2: World)
    requires FingerprintOf(w1).Some? && FingerprintOf(w2).Some?
    ensures FingerprintOf(w1) == FingerprintOf(w2) <==> Stamps(w1) == Stamps(w2)
  {
    var f1, f2 := FingerprintOf(w1).value, FingerprintOf(w2).value;
    StampOrder();
    if Stamps(w1) == Stamps(w2) {
      SortedListUnique(StampLess, f1, f2, Stamps(w1));
    }
    if f1 == f2 {
      assert Stamps(w1) == Stamps(w2) by {
        assert forall x :: x in Stamps(w1) <==> x in f1;
        assert forall x :: x in Stamps(w2) <==> x in f1;
      }
    }
  }

  /** Every path is listed once, with its time, in path order. */
  lemma ListedOnce(w: World, sorted: Fingerprint)
    requires w.global.Some? && w.local.Some? && SortedListOf(StampLess, sorted, Stamps(w))
    ensures forall p, time :: (p, time) in sorted <==>
              p in w.global.value + w.local.value && time == (if p in w.mtimes then w.mtimes[p] else 0)
    ensures forall i, j :: 0 <= i < j < |sorted| ==> PathLess(sorted[i].0, sorted[j].0)
  {
    forall p, time: nat
      ensures (p, time) in sorted <==>
                p in w.global.value + w.local.value && time == (if p in w.mtimes then w.mtimes[p] else 0)
    {
      StampIn(w, p, time);
    }
    forall i, j | 0 <= i < j < |sorted| ensures PathLess(sorted[i].0, sorted[j].0) {
      assert sorted[i] in sorted && sorted[j] in sorted && StampLess(sorted[i], sorted[j]);
    }
  }

  /** Both directories' files are stamped; sorting and removing repeated paths is sorting the set. */
  method CollectFingerprint(w: World) returns (fingerprint: Option<Fingerprint>)
    ensures fingerprint == FingerprintOf(w)
    ensures fingerprint.Some? <==> w.global.Some? && w.local.Some?
    ensures fingerprint.Some? ==>
              forall p, time :: (p, time) in fingerprint.value <==>
                p in w.global.value + w.local.value && time == (if p in w.mtimes then w.mtimes[p] else 0)
    ensures fingerprint.Some? ==>
              forall i, j :: 0 <= i < j < |fingerprint.value| ==>
                PathLess(fingerprint.value[i].0, fingerprint.value[j].0)
  {
    if w.global.None? || w.local.None? {
      return None;
    }
    var entries: Fingerprint := [];
    entries := Stamp(w, w.global.value, entries);
    entries := Stamp(w, w.local.value, entries);
    StampOrder();
    var stamps := set e | e in entries;
    assert stamps == Stamps(w);
    var sorted := Sort(StampLess, stamps);
    SortedListUnique(StampLess, sorted, FingerprintOf(w).value, Stamps(w));
    ListedOnce(w, sorted);
    return Some(sorted);
  }

  method Stamp(w: World, dir: set<Path>, entries: Fingerprint) returns (entries': Fingerprint)
    ensures forall e :: e in entries' <==> e in entries || (e.0 in dir && e.1 == Mtime(w, e.0))
  {
    var paths := SortPaths(dir);
    entries' := entries;
    for i := 0 to |paths|
      invariant forall e :: e in entries' <==>
                  e in entries || (exists k :: 0 <= k < i && e == (paths[k], Mtime(w, paths[k])))
    {
      entries' := entries' + [(paths[i], Mtime(w, paths[i]))];
    }
    forall e ensures e in entries' <==> e in entries || (e.0 in dir && e.1 == Mtime(w, e.0)) {
      if e.0 in dir && e.1 == Mtime(w, e.0) {
        assert e.0 in paths;
        var k :| 0 <= k < |paths| && paths[k] == e.0;
        assert e == (paths[k], Mtime(w, paths[k]));
      }
    }
  }

  // ---- the cache file ----------------------------------------------------------------------

  datatype CacheFile =
    | Missing
    | Corrupt
    | Stored(version: nat, fingerprint: Fingerprint, catalog: TemplateCatalog)

  function TryLoad(file: CacheFile, fingerprint: Fingerprint): Option<TemplateCatalog> {
    if file.Stored? && file.version == CACHE_VERSION && file.fingerprint == fingerprint then Some(file.catalog)
    else None
  }

  /** The cache file after a load; `saves` says whether writing it would succeed. */
  ghost function FileAfter(file: CacheFile, w: World, saves: bool): CacheFile {
    var fingerprint := FingerprintOf(w);
    if fingerprint.None? || TryLoad(file, fingerprint.value).Some? || Build(w).None? || !saves then file
    else Stored(CACHE_VERSION, fingerprint.value, Build(w).value)
  }

  /** What a load returns. */
  ghost function Loaded(file: CacheFile, w: World): Option<TemplateCatalog> {
    var fingerprint := FingerprintOf(w);
    if fingerprint.None? then None
    else
      var cached := TryLoad(file, fingerprint.value);
      if cached.Some? then cached else Build(w)
  }

  class Cache {
    var file: CacheFile

    constructor (file: CacheFile)
      ensures this.file == file
    {
      this.file := file;
    }

    /** Replaces the cache file in one step, or leaves it when writing fails. */
    method Save(fingerprint: Fingerprint, catalog: TemplateCatalog, saves: bool)
      modifies this
      ensures file == if saves then Stored(CACHE_VERSION, fingerprint, catalog) else old(file)
    {
      if saves {
        file := Stored(CACHE_VERSION, fingerprint, catalog);
      }
    }

    method LoadCatalog(w: World, saves: bool) returns (catalog: Option<TemplateCatalog>)
      modifies this
      ensures catalog == Loaded(old(file), w) && file == FileAfter(old(file), w, saves)
      ensures var hit := old(file).Stored? && old(file).version == 2
                         && FingerprintOf(w) == Some(old(file).fingerprint);
              && catalog == (if hit then Some(old(file).catalog) else Build(w))
              && file == (if hit || Build(w).None? || !saves then old(file)
                          else Stored(2, FingerprintOf(w).value, Build(w).value))
    {
      var fingerprint := CollectFingerprint(w);
      if fingerprint.None? {
        return None;
      }
      catalog := TryLoad(file, fingerprint.value);
      if catalog.Some? {
        return;
      }
      catalog := LoadCatalogFromDirs(w);
      if catalog.Some? {
        Save(fingerprint.value, catalog.value, saves);
      }
    }
  }

  // ---- runs of edits and loads -----------------------------------------------------------

  /** A run: what each load sees, after any edits since the last one, and whether its save succeeds. */
  type Run = seq<(World, bool)>

  ghost function FileAfterRun(file: CacheFile, run: Run): CacheFile {
    if run == [] then file
    else
      var n := |run| - 1;
      FileAfter(FileAfterRun(file, run[..n]), run[n].0, run[n].1)
  }

  /** What load `i` of the run returns. */
  ghost function ResultAt(file: CacheFile, run: Run, i: nat): Option<TemplateCatalog>
    requires i < |run|
  {
    Loaded(FileAfterRun(file, run[..i]), run[i].0)
  }

  /** The file holds no catalog that this version would load. */
  predicate Unusable(file: CacheFile) {
    !file.Stored? || file.version != CACHE_VERSION
  }

  /** Every load of every run over the given worlds returns what a fresh build returns. */
  ghost predicate Coherent(worlds: iset<World>) {
    forall file, run: Run, i: nat ::
      Unusable(file) && (forall j :: 0 <= j < |run| ==> run[j].0 in worlds) && i < |run| ==>
        ResultAt(file, run, i) == Build(run[i].0)
  }

  /** Both list their directories, and find the same files with the same modification times. */
  ghost predicate SameStamps(w1: World, w2: World) {
    w1.global.Some? && w1.local.Some? && w2.global.Some? && w2.local.Some? && Stamps(w1) == Stamps(w2)
  }

  /** The last files give every key the same entry. */
  ghost predicate SameLastEntries(w1: World, w2: World)
    requires AllParse(w1) && AllParse(w2)
  {
    forall k :: LastEntry(w1, k) == LastEntry(w2, k)
  }

  /**
   Wherever the same files have the same modification times and all parse in one world, they all parse
   in the other, and the last file for every key gives it the same entry.
   */
  ghost predicate StampsDecide(worlds: iset<World>) {
    forall w1, w2 :: w1 in worlds && w2 in worlds && SameStamps(w1, w2) && AllParse(w1) ==>
                       AllParse(w2) && SameLastEntries(w1, w2)
  }

  /** Worlds with one fingerprint build alike. */
  ghost predicate BuildsAgree(worlds: iset<World>) {
    forall w1, w2 ::
      w1 in worlds && w2 in worlds && Build(w1).Some? && FingerprintOf(w2) == FingerprintOf(w1) ==>
        Build(w2) == Build(w1)
  }

  lemma SameStampsSameFingerprint(w1: World, w2: World)
    requires FingerprintOf(w1).Some?
    ensures FingerprintOf(w2) == FingerprintOf(w1) <==> SameStamps(w1, w2)
  {
    if FingerprintOf(w2).Some? { SameFingerprintStamps(w1, w2); }
  }

  lemma PairAgrees(w1: World, w2: World)
    requires AllParse(w1)
    ensures Build(w1).Some? && FingerprintOf(w1).Some?
    ensures Build(w2) == Build(w1) <==> AllParse(w2) && SameLastEntries(w1, w2)
  {
    hide Build, LastEntry;
    BuildsIff(w1);
    BuildsIff(w2);
    if AllParse(w2) { BuildsEqualIff(w1, w2); }
  }

  lemma BuildsAgreeIff(worlds: iset<World>)
    ensures BuildsAgree(worlds) <==> StampsDecide(worlds)
  {
    hide Build, SameLastEntries, SameStamps, FingerprintOf, AllParse;
    forall w1, w2
      ensures Build(w1).Some? && FingerprintOf(w2) == FingerprintOf(w1) <==> AllParse(w1) && SameStamps(w1, w2)
      ensures AllParse(w1) ==> (Build(w2) == Build(w1) <==> AllParse(w2) && SameLastEntries(w1, w2))
    {
      BuildsIff(w1);
      if AllParse(w1) {
        PairAgrees(w1, w2);
        SameStampsSameFingerprint(w1, w2);
      }
    }
  }

  /** What a usable cache file holds was built from one of the worlds seen. */
  lemma {:induction false} StoredWasBuilt(worlds: iset<World>, file: CacheFile, run: Run)
    requires Unusable(file) && forall j :: 0 <= j < |run| ==> run[j].0 in worlds
    ensures var f := FileAfterRun(file, run);
            Unusable(f) || exists w :: w in worlds && FingerprintOf(w) == Some(f.fingerprint)
                                       && Build(w) == Some(f.catalog)
    decreases |run|
  {
    if run == [] {
    } else {
      var n := |run| - 1;
      StoredWasBuilt(worlds, file, run[..n]);
      assert run[n].0 in worlds;
    }
  }

  lemma {:induction false} CoherentWhenBuildsAgree(worlds: iset<World>)
    requires BuildsAgree(worlds)
    ensures Coherent(worlds)
  {
    forall file, run: Run, i: nat |
      Unusable(file) && (forall j :: 0 <= j < |run| ==> run[j].0 in worlds) && i < |run|
      ensures ResultAt(file, run, i) == Build(run[i].0)
    {
      StoredWasBuilt(worlds, file, run[..i]);
    }
  }

  /** Two worlds that look alike and build differently: the second load returns the first catalog. */
  lemma StaleLoad(w1: World, w2: World)
    requires Build(w1).Some? && FingerprintOf(w2) == FingerprintOf(w1)
    ensures ResultAt(Missing, [(w1, true), (w2, true)], 1) == Build(w1)
  {
    var run := [(w1, true), (w2, true)];
    assert run[..1] == [(w1, true)] && run[..1][..0] == [];
    assert FileAfterRun(Missing, []) == Missing;
    assert FileAfterRun(Missing, run[..1]) == FileAfter(Missing, w1, true);
  }

  /**
   A noticed edit reloads: when a template file has another modification time, or is gone, or is new, the
   next load builds the catalog anew.
   */
  lemma NoticedEditReloads(file: CacheFile, w1: World, w2: World, saves: bool, p: Path)
    requires w1.global.Some? && w1.local.Some? && w2.global.Some? && w2.local.Some? && Unusable(file)
    requires var files1, files2 := w1.global.value + w1.local.value, w2.global.value + w2.local.value;
             || (p in files1 && p in files2 && p in w1.mtimes && p in w2.mtimes && w1.mtimes[p] != w2.mtimes[p])
             || (p in files1 && p !in files2) || (p !in files1 && p in files2)
    ensures FingerprintOf(w1) != FingerprintOf(w2)
    ensures ResultAt(file, [(w1, true), (w2, saves)], 1) == Build(w2)
  {
    hide Build;
    var run := [(w1, true), (w2, saves)];
    SameFingerprint(w1, w2);
    assert run[..1] == [(w1, true)] && run[..1][..0] == [];
    assert FileAfterRun(file, []) == file;
    assert FileAfterRun(file, run[..1]) == FileAfter(file, w1, true);
  }

  lemma BuildsAgreeWhenCoherent(worlds: iset<World>)
    requires Coherent(worlds)
    ensures BuildsAgree(worlds)
  {
    forall w1, w2 |
      w1 in worlds && w2 in worlds && Build(w1).Some? && FingerprintOf(w2) == FingerprintOf(w1)
      ensures Build(w2) == Build(w1)
    {
      StaleLoad(w1, w2);
      var run: Run := [(w1, true), (w2, true)];
      assert Unusable(Missing) && forall j :: 0 <= j < |run| ==> run[j].0 in worlds;
      assert ResultAt(Missing, run, 1) == Build(run[1].0);
    }
  }

  /**
   Loads through the cache agree with fresh builds in all runs over some worlds exactly when, among
   those worlds, files with the same stamps parse, and the last file for every key gives it the same entry.
   */
  lemma CoherentIff(worlds: iset<World>)
    ensures Coherent(worlds) <==> StampsDecide(worlds)
  {
    hide Coherent, BuildsAgree, StampsDecide;
    BuildsAgreeIff(worlds);
    if BuildsAgree(worlds) {
      CoherentWhenBuildsAgree(worlds);
    } else if Coherent(worlds) {
      BuildsAgreeWhenCoherent(worlds);
    }
  }

  /** What a file includes is not stamped: changing only the parsed contents keeps the fingerprint. */
  lemma ContentsAreNotStamped(w: World, parsed: map<Path, TemplateFile>)
    ensures FingerprintOf(w.(parsed := parsed)) == FingerprintOf(w)
  {
    if FingerprintOf(w).Some? {
      assert Stamps(w.(parsed := parsed)) == Stamps(w);
      SameFingerprintStamps(w, w.(parsed := parsed));
    }
  }
}
