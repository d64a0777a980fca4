/** The third walk, which decides what is compiled (`project.rs`), and its agreement with
    the lockfile.  It remembers root directories. */
module CompileWalk {
  import opened Wrappers
  import opened Order
  import opened Packages
  import opened Reachability
  import opened LockGraph
  import opened LockWalk
  import opened Lockfile
  import opened Requirements

  function NameOf(t: Target): string { if t.Found? then t.manifest.name else t.dependency.name }

  function CompareNames(x: Target, y: Target): Ordering { CompareString(NameOf(x), NameOf(y)) }

  lemma CompareNamesIsTotalPreorder()
    ensures IsTotalPreorder(CompareNames)
  {
    hide CompareString;
    CompareStringIsTotalOrder();
  }

  /** A target whose dependencies or sources cannot be had. */
  ghost predicate Unloadable(w: World, t: Target) {
    t.Unresolved? || !Sound(w, t) || w.sourceFiles(t.manifest).None?
  }

  /** The directory a package lives in; an unresolved dependency has none. */
  function RootKey(w: World, t: Target): Option<string> {
    if t.Found? then Some(w.canonical(t.manifest.root)) else None
  }

  ghost function RootKeys(w: World): Target -> Option<string> { t => RootKey(w, t) }

  /** A root directory determines the package in it and the directories it depends on. */
  ghost predicate RootCoherent(w: World, root: Target) {
    && KeyDeterminesSuccessors(Edges(w), RootKeys(w), root)
    && forall s, t :: Reaches(w, root, s) && Reaches(w, root, t) && s.Found? && t.Found?
                      && RootKey(w, s) == RootKey(w, t) ==>
         s.manifest.name == t.manifest.name && s.manifest.version == t.manifest.version
  }

  ghost predicate RootsWithin(w: World, root: Target, roots: set<string>) {
    forall t :: Reaches(w, root, t) && t.Found? ==> w.canonical(t.manifest.root) in roots
  }

  /** `resolved_dependency_manifests`: all of them, sorted by name, or an error. */
  method ResolvedDependencies(w: World, t: Target, ghost root: Target) returns (r: Result<seq<Target>, LoadError>)
    requires t.Found? && Reaches(w, root, t)
    ensures r.Ok? ==> (forall u :: Edge(w, t, u) <==> u in r.value)
                      && forall u :: u in r.value ==> u.Found? && Reaches(w, root, u)
    ensures r.Ok? ==> Sorted(r.value, CompareNames)
    ensures r.Err? ==> exists u :: Reaches(w, root, u) && Unloadable(w, u)
    ensures r.Ok? <==> AllMet(w, t.manifest)
  {
    hide Follow, Reachable, CompareNames, Sound, IsMet;
    CompareNamesIsTotalPreorder();
    var ds := t.manifest.dependencies;
    var found: seq<Target> := [];
    for i := 0 to |ds|
      invariant |found| == i
      invariant forall j :: 0 <= j < i ==>
                  Follow(w, t.manifest, ds[j]) == Ok(found[j]) && found[j].Found? && Reaches(w, root, found[j])
    {
      if ds[i].source.Registry? && DiscoverRegistry(w, t.manifest).None? {
        FollowUnresolved(w, t.manifest, ds[i]);
        FollowReaches(w, root, t, i);
        NotMet(w, t.manifest, i);
        assert Unloadable(w, Unresolved(ds[i]));
        return Err(NoRegistry);
      }
      var next := Follow(w, t.manifest, ds[i]);
      if next.Err? {
        UnsoundIfErr(w, t, i);
        NotMet(w, t.manifest, i);
        return Err(next.error);
      }
      FollowFinds(w, t.manifest, ds[i]);
      FollowReaches(w, root, t, i);
      found := found + [next.value];
    }
    FollowedAreMet(w, t.manifest);
    var sorted := SortBy(found, CompareNames);
    SortBySorts(found, CompareNames);
    forall u ensures u in sorted <==> u in found {
      assert u in multiset(sorted) <==> u in multiset(found);
    }
    r := Ok(sorted);
  }

  /** Every dependency is met; one that is open is not. */
  ghost predicate AllMet(w: World, m: Manifest) { forall d :: d in m.dependencies ==> IsMet(w, m, d) }

  lemma MetIsFollowed(w: World, m: Manifest, d: Dependency)
    ensures IsMet(w, m, d) <==> Follow(w, m, d).Ok? && Follow(w, m, d).value.Found?
  {
    hide Follow, Satisfies;
    FollowSatisfies(w, m, d);
    if IsOpen(w, m, d) { OpenIsNotMet(w, m, d); }
  }

  lemma OpenIsNotMet(w: World, m: Manifest, d: Dependency)
    requires IsOpen(w, m, d)
    ensures !IsMet(w, m, d)
  {}

  lemma NotMet(w: World, m: Manifest, i: nat)
    requires i < |m.dependencies|
    requires var next := Follow(w, m, m.dependencies[i]); next.Err? || next.value.Unresolved?
    ensures !AllMet(w, m)
  {
    hide Follow, IsMet;
    MetIsFollowed(w, m, m.dependencies[i]);
    assert m.dependencies[i] in m.dependencies;
  }

  lemma FollowedAreMet(w: World, m: Manifest)
    requires forall i :: 0 <= i < |m.dependencies| ==>
               Follow(w, m, m.dependencies[i]).Ok? && Follow(w, m, m.dependencies[i]).value.Found?
    ensures AllMet(w, m)
  {
    hide Follow, IsMet;
    forall d | d in m.dependencies ensures IsMet(w, m, d) {
      MetIsFollowed(w, m, d);
    }
  }

  lemma FollowUnresolved(w: World, m: Manifest, d: Dependency)
    requires d.source.Registry? && DiscoverRegistry(w, m).None?
    ensures Follow(w, m, d) == Ok(Unresolved(d))
  {}

  lemma UnsoundIfErr(w: World, t: Target, i: nat)
    requires t.Found? && i < |t.manifest.dependencies| && Follow(w, t.manifest, t.manifest.dependencies[i]).Err?
    ensures !Sound(w, t)
  {}

  lemma FollowFinds(w: World, m: Manifest, d: Dependency)
    requires Follow(w, m, d).Ok? && !(d.source.Registry? && DiscoverRegistry(w, m).None?)
    ensures Follow(w, m, d).value.Found?
  {}

  /** A package that compiles, as far as finding things goes. */
  ghost predicate IsCompilable(w: World, m: Manifest) {
    w.validate(m) && w.sourceFiles(m).Some? && AllMet(w, m)
  }

  ghost predicate CompilableFrom(w: World, loaded: seq<Target>, from: nat) {
    forall i :: from <= i < |loaded| ==> loaded[i].Found? && IsCompilable(w, loaded[i].manifest)
  }

  ghost predicate CannotCompile(w: World, root: Target) {
    exists u: Target :: Reaches(w, root, u) && u.Found? && !IsCompilable(w, u.manifest)
  }

  function AllSources(w: World, loaded: seq<Target>): seq<string> {
    if |loaded| == 0 then []
    else AllSources(w, loaded[..|loaded| - 1]) + SourcesOf(w, loaded[|loaded| - 1])
  }

  function SourcesOf(w: World, t: Target): seq<string> {
    if t.Found? && w.sourceFiles(t.manifest).Some? then w.sourceFiles(t.manifest).value else []
  }

  /** Every dependency's directory has been entered. */
  ghost predicate Entered(w: World, t: Target, visited: set<string>) {
    forall u :: Edge(w, t, u) ==> u.Found? && w.canonical(u.manifest.root) in visited
  }

  ghost predicate EnteredFrom(w: World, loaded: seq<Target>, from: nat, visited: set<string>) {
    forall i :: from <= i < |loaded| ==> Entered(w, loaded[i], visited)
  }

  lemma InRoots(w: World, root: Target, roots: set<string>, t: Target)
    requires RootsWithin(w, root, roots) && t.Found? && Reaches(w, root, t)
    ensures w.canonical(t.manifest.root) in roots
  {}

  lemma CompilableIsMet(w: World, m: Manifest)
    ensures IsCompilable(w, m) <==> w.validate(m) && w.sourceFiles(m).Some? && AllMet(w, m)
  {}

  lemma NotCompilable(w: World, root: Target, t: Target)
    requires t.Found? && Reaches(w, root, t) && !IsCompilable(w, t.manifest)
    ensures CannotCompile(w, root)
  {}

  lemma CannotEnter(w: World, root: Target, t: Target)
    requires t.Found? && Reaches(w, root, t) && (!w.validate(t.manifest) || w.sourceFiles(t.manifest).None?)
    ensures CannotCompile(w, root) && exists u :: Reaches(w, root, u) && Unloadable(w, u)
  {
    hide Reachable;
    NotCompilable(w, root, t);
    assert Unloadable(w, t);
  }

  class PackageLoader {
    var visited: set<string>
    var files: seq<string>
    ghost var loaded: seq<Target>  // the packages whose sources were taken, in order

    constructor ()
      ensures visited == {} && files == [] && loaded == []
    {
      visited, files, loaded := {}, [], [];
    }

    ghost predicate Valid(w: World, root: Target)
      reads this
    {
      && files == AllSources(w, loaded)
      && (forall i :: 0 <= i < |loaded| ==> loaded[i].Found? && Reaches(w, root, loaded[i]))
      && (forall k :: k in visited ==> HasKey(RootKeys(w), loaded, Some(k)))
      && (forall i, j :: 0 <= i < j < |loaded| ==> RootKey(w, loaded[i]) != RootKey(w, loaded[j]))
      && (forall i :: 0 <= i < |loaded| ==> w.canonical(loaded[i].manifest.root) in visited)
    }

    /** `collect_package_files`: each directory's sources once, dependencies after their dependent. */
    method CollectPackageFiles(w: World, t: Target, ghost root: Target, ghost roots: set<string>)
      returns (r: Result<(), LoadError>)
      requires t.Found? && Reaches(w, root, t) && RootsWithin(w, root, roots) && Valid(w, root)
      modifies this
      ensures Valid(w, root) && old(loaded) <= loaded && old(visited) <= visited
      ensures r.Ok? ==> w.canonical(t.manifest.root) in visited && EnteredFrom(w, loaded, |old(loaded)|, visited)
      ensures r.Err? ==> exists u :: Reaches(w, root, u) && Unloadable(w, u)
      ensures r.Ok? ==> CompilableFrom(w, loaded, |old(loaded)|)
      ensures r.Ok? && old(loaded) == [] ==> loaded != [] && loaded[0] == t
      ensures r.Err? ==> CannotCompile(w, root)
      decreases roots - visited
    {
      hide *;
      var key := w.canonical(t.manifest.root);
      InRoots(w, root, roots, t);
      if key in visited {
        SomethingLoaded(w, root, key);
        NothingEntered(w, loaded, visited);
        return Ok(());
      }
      if !w.validate(t.manifest) || w.sourceFiles(t.manifest).None? {
        CannotEnter(w, root, t);
        return Err(if w.validate(t.manifest) then NoSources else InvalidManifest);
      }
      Enter(w, t, root);
      ghost var start, entered := |loaded|, loaded;
      NothingEntered(w, loaded, visited);
      var dependencies := ResolvedDependencies(w, t, root);
      if dependencies.Err? {
        CompilableIsMet(w, t.manifest);
        NotCompilable(w, root, t);
        return Err(dependencies.error);
      }
      var ds := dependencies.value;
      for i := 0 to |ds|
        invariant Valid(w, root) && entered <= loaded && old(visited) + {key} <= visited
        invariant forall j :: 0 <= j < i ==> w.canonical(ds[j].manifest.root) in visited
        invariant EnteredFrom(w, loaded, start, visited) && CompilableFrom(w, loaded, start)
      {
        ghost var seen, path := visited, loaded;
        assert ds[i] in ds;
        var sub := CollectPackageFiles(w, ds[i], root, roots);
        if sub.Err? {
          return sub;
        }
        EnteredFromGrows(w, path, loaded, start, seen, visited);
      }
      CompilableIsMet(w, t.manifest);
      EnteredWhole(w, t, ds, loaded, start, visited);
      r := Ok(());
    }

    lemma SomethingLoaded(w: World, root: Target, k: string)
      requires Valid(w, root) && k in visited
      ensures loaded != []
    {
      hide Reaches;
      assert HasKey(RootKeys(w), loaded, Some(k));
    }

    method Enter(w: World, t: Target, ghost root: Target)
      requires t.Found? && Reaches(w, root, t) && Valid(w, root) && w.canonical(t.manifest.root) !in visited
      requires w.sourceFiles(t.manifest).Some?
      modifies this
      ensures Valid(w, root) && loaded == old(loaded) + [t] && visited == old(visited) + {w.canonical(t.manifest.root)}
    {
      hide Reachable, AllSources, HasKey;
      visited := visited + {w.canonical(t.manifest.root)};
      files := files + w.sourceFiles(t.manifest).value;
      loaded := loaded + [t];
      OneMoreSource(w, old(loaded), t);
      OneMoreRoot(w, old(loaded), old(visited), t);
    }
  }

  lemma OneMoreRoot(w: World, loaded: seq<Target>, visited: set<string>, t: Target)
    requires t.Found? && forall k :: k in visited ==> HasKey(RootKeys(w), loaded, Some(k))
    ensures forall k :: k in visited + {w.canonical(t.manifest.root)} ==> HasKey(RootKeys(w), loaded + [t], Some(k))
  {
    var more := loaded + [t];
    forall k | k in visited + {w.canonical(t.manifest.root)} ensures HasKey(RootKeys(w), more, Some(k)) {
      if k in visited {
        var i :| 0 <= i < |loaded| && RootKeys(w)(loaded[i]) == Some(k);
        assert more[i] == loaded[i];
      } else {
        assert RootKeys(w)(more[|loaded|]) == Some(k);
      }
    }
  }

  lemma OneMoreSource(w: World, loaded: seq<Target>, t: Target)
    ensures AllSources(w, loaded + [t]) == AllSources(w, loaded) + SourcesOf(w, t)
  {
    assert (loaded + [t])[..|loaded|] == loaded;
  }

  lemma NothingEntered(w: World, loaded: seq<Target>, visited: set<string>)
    ensures EnteredFrom(w, loaded, |loaded|, visited) && CompilableFrom(w, loaded, |loaded|)
  {}

  lemma EnteredFromGrows(w: World, path: seq<Target>, loaded: seq<Target>, from: nat, visited: set<string>,
                         more: set<string>)
    requires path <= loaded && visited <= more
    requires EnteredFrom(w, path, from, visited) && EnteredFrom(w, loaded, |path|, more)
    requires CompilableFrom(w, path, from) && CompilableFrom(w, loaded, |path|)
    ensures EnteredFrom(w, loaded, from, more) && CompilableFrom(w, loaded, from)
  {
    hide Edge, IsCompilable;
    forall i | from <= i < |loaded|
      ensures Entered(w, loaded[i], more) && loaded[i].Found? && IsCompilable(w, loaded[i].manifest)
    {
      if i < |path| {
        assert path[i] == loaded[i];
      }
    }
  }

  lemma EnteredWhole(w: World, t: Target, ds: seq<Target>, loaded: seq<Target>, start: nat, visited: set<string>)
    requires forall u :: Edge(w, t, u) <==> u in ds
    requires forall j :: 0 <= j < |ds| ==> ds[j].Found? && w.canonical(ds[j].manifest.root) in visited
    requires 0 < start <= |loaded| && loaded[start - 1] == t && EnteredFrom(w, loaded, start, visited)
    requires t.Found? && IsCompilable(w, t.manifest) && CompilableFrom(w, loaded, start)
    ensures EnteredFrom(w, loaded, start - 1, visited) && CompilableFrom(w, loaded, start - 1)
  {
    hide Edge, IsCompilable;
  }

  // ---------- agreement with the lockfile ----------

  ghost predicate Locked(es: seq<LockPackage>, name: string, version: string) {
    exists e :: e in es && e.name == name && e.version == version
  }

  ghost predicate Loaded(loaded: seq<Target>, name: string, version: string) {
    exists i :: 0 <= i < |loaded| && loaded[i].Found? && loaded[i].manifest.name == name
      && loaded[i].manifest.version == version
  }

  /** The sources are those of some reachable packages, taken one after the other. */
  ghost predicate IsCompilation(w: World, root: Target, loaded: seq<Target>, files: seq<string>) {
    files == AllSources(w, loaded) && forall i :: 0 <= i < |loaded| ==> loaded[i].Found? && Reaches(w, root, loaded[i])
  }

  /** The packages compiled and the entries locked name the same packages: each direction. */
  ghost predicate AllLocked(loaded: seq<Target>, es: seq<LockPackage>) {
    forall n, v :: Loaded(loaded, n, v) ==> Locked(es, n, v)
  }

  ghost predicate AllLoaded(loaded: seq<Target>, es: seq<LockPackage>) {
    forall n, v :: Locked(es, n, v) ==> Loaded(loaded, n, v)
  }

  // ---------- said of manifests ----------

  /** The files are the sources of these packages, one after the other: the workspace first, all
      of them needed and compilable, each directory once, and none left out that one of them
      requires. */
  ghost predicate Compiles(w: World, root: Manifest, ms: seq<Manifest>, files: seq<string>) {
    && ms != [] && ms[0] == root && files == SourcesOfAll(w, ms)
    && (forall m :: m in ms ==> Needs(w, root, m) && IsCompilable(w, m))
    && (forall i, j :: 0 <= i < j < |ms| ==> w.canonical(ms[i].root) != w.canonical(ms[j].root))
    && (forall m, n :: m in ms && Requires(w, m, n) ==> IsEntered(w, ms, w.canonical(n.root)))
  }

  function SourcesOfAll(w: World, ms: seq<Manifest>): seq<string> {
    if |ms| == 0 then []
    else
      var files := w.sourceFiles(ms[|ms| - 1]);
      SourcesOfAll(w, ms[..|ms| - 1]) + if files.Some? then files.value else []
  }

  ghost predicate IsEntered(w: World, ms: seq<Manifest>, directory: string) {
    exists m :: m in ms && w.canonical(m.root) == directory
  }

  function LoadedManifests(loaded: seq<Target>): (ms: seq<Manifest>)
    requires forall i :: 0 <= i < |loaded| ==> loaded[i].Found?
    ensures |ms| == |loaded| && forall i :: 0 <= i < |loaded| ==> ms[i] == loaded[i].manifest
  {
    seq(|loaded|, i requires 0 <= i < |loaded| => loaded[i].manifest)
  }

  lemma {:induction false} SameSources(w: World, loaded: seq<Target>)
    requires forall i :: 0 <= i < |loaded| ==> loaded[i].Found?
    ensures SourcesOfAll(w, LoadedManifests(loaded)) == AllSources(w, loaded)
  {
    if loaded != [] {
      var front := loaded[..|loaded| - 1];
      SameSources(w, front);
      assert LoadedManifests(loaded)[..|loaded| - 1] == LoadedManifests(front);
    }
  }

  lemma LoadedCompiles(w: World, m: Manifest, loader: PackageLoader) returns (ms: seq<Manifest>)
    requires loader.Valid(w, Workspace(m)) && CompilableFrom(w, loader.loaded, 0)
    requires loader.loaded != [] && loader.loaded[0] == Workspace(m)
    requires EnteredFrom(w, loader.loaded, 0, loader.visited)
    ensures Compiles(w, m, ms, loader.files)
  {
    hide Reaches, Needs, IsCompilable, AllSources, SourcesOfAll, Requires, Edge;
    var loaded := loader.loaded;
    ms := LoadedManifests(loaded);
    SameSources(w, loaded);
    forall i | 0 <= i < |ms| ensures Needs(w, m, ms[i]) && IsCompilable(w, ms[i]) {
      ReachedIsNeeded(w, m, loaded[i]);
    }
    forall i, j | 0 <= i < j < |ms| ensures w.canonical(ms[i].root) != w.canonical(ms[j].root) {
      assert RootKey(w, loaded[i]) != RootKey(w, loaded[j]);
    }
    forall k, n | k in ms && Requires(w, k, n) ensures IsEntered(w, ms, w.canonical(n.root)) {
      var i :| 0 <= i < |ms| && ms[i] == k;
      var t := RequirementIsEdge(w, loaded[i], n);
      assert Entered(w, loaded[i], loader.visited);
      VisitedIsEntered(w, m, loader, ms, w.canonical(n.root));
    }
  }

  lemma VisitedIsEntered(w: World, m: Manifest, loader: PackageLoader, ms: seq<Manifest>, directory: string)
    requires loader.Valid(w, Workspace(m)) && directory in loader.visited && ms == LoadedManifests(loader.loaded)
    ensures IsEntered(w, ms, directory)
  {
    hide Reaches;
    assert HasKey(RootKeys(w), loader.loaded, Some(directory));
    var j :| 0 <= j < |loader.loaded| && RootKeys(w)(loader.loaded[j]) == Some(directory);
    assert ms[j] in ms;
  }

  /** Something needed does not compile. */
  ghost predicate SomethingMissing(w: World, root: Manifest) {
    exists m :: Needs(w, root, m) && !IsCompilable(w, m)
  }

  lemma CannotIsMissing(w: World, m: Manifest)
    requires CannotCompile(w, Workspace(m))
    ensures SomethingMissing(w, m)
  {
    hide Reaches, Needs, IsCompilable;
    var u: Target :| Reaches(w, Workspace(m), u) && u.Found? && !IsCompilable(w, u.manifest);
    ReachedIsNeeded(w, m, u);
  }

  /** Whatever is compiled is locked; and if directories determine packages, whatever is
      locked is compiled: the two walks agree on every name and version. */
  method CompileWithLock(w: World, manifest: Manifest, ghost keys: set<string>, ghost roots: set<string>)
    returns (lock: Result<seq<LockPackage>, LoadError>, files: Result<seq<string>, LoadError>)
    requires KeysWithin(w, Workspace(manifest), keys) && RootsWithin(w, Workspace(manifest), roots)
    requires Coherent(w, Workspace(manifest))
    ensures lock.Ok? && files.Ok? ==>
              exists loaded :: IsCompilation(w, Workspace(manifest), loaded, files.value)
                && AllLocked(loaded, lock.value)
                && (RootCoherent(w, Workspace(manifest)) ==> AllLoaded(loaded, lock.value))
    ensures lock.Err? ==> !AllSound(w, Workspace(manifest))
    ensures files.Err? ==> exists u :: Reaches(w, Workspace(manifest), u) && Unloadable(w, u)
    ensures lock.Ok? ==> IsAccounted(w, manifest, lock.value) && IsExhaustive(w, manifest, lock.value)
    ensures lock.Ok? <==> AllSatisfied(w, manifest)
    ensures files.Ok? ==> exists ms :: Compiles(w, manifest, ms, files.value)
    ensures files.Err? ==> SomethingMissing(w, manifest)
  {
    hide Compiles, SomethingMissing, CannotCompile, AllSatisfied, IsAccounted, IsExhaustive, IsCompilable;
    hide Reachable, Coherent, RootCoherent, Loaded, Locked, IsLockOf, AllSound, AllLocked, AllLoaded, IsWalk, ListsWalk;
    hide Unloadable;
    ghost var root := Workspace(manifest);
    lock := ResolveLockEntries(w, manifest, keys);
    ReachesItself(Edges(w), root);
    var loader := new PackageLoader();
    var walk := loader.CollectPackageFiles(w, Workspace(manifest), root, roots);
    files := if walk.Ok? then Ok(loader.files) else Err(walk.error);
    if walk.Ok? {
      ghost var ms := LoadedCompiles(w, manifest, loader);
    } else {
      CannotIsMissing(w, manifest);
    }
    if lock.Ok? && walk.Ok? {
      assert IsCompilation(w, root, loader.loaded, files.value);
      CompiledIsLocked(w, root, lock.value, loader.loaded);
      if RootCoherent(w, root) {
        LockedIsCompiled(w, root, lock.value, loader.loaded, loader.visited);
      }
    }
  }

  lemma CompiledIsLocked(w: World, root: Target, es: seq<LockPackage>, loaded: seq<Target>)
    requires IsLockOf(w, root, es) && forall i :: 0 <= i < |loaded| ==> Reaches(w, root, loaded[i])
    ensures AllLocked(loaded, es)
  {
    hide Reaches, StrictlySorted;
    forall n, v | Loaded(loaded, n, v) ensures Locked(es, n, v) {
      var i :| 0 <= i < |loaded| && loaded[i].Found? && loaded[i].manifest.name == n && loaded[i].manifest.version == v;
      assert Entry(loaded[i]) in es;
    }
  }

  lemma LockedIsCompiled(w: World, root: Target, es: seq<LockPackage>, loaded: seq<Target>, visited: set<string>)
    requires IsLockOf(w, root, es) && RootCoherent(w, root)
    requires forall i :: 0 <= i < |loaded| ==> loaded[i].Found? && Reaches(w, root, loaded[i])
    requires forall k :: k in visited ==> HasKey(RootKeys(w), loaded, Some(k))
    requires root.Found? && w.canonical(root.manifest.root) in visited && EnteredFrom(w, loaded, 0, visited)
    ensures AllLoaded(loaded, es)
  {
    hide Reaches, IsLockOf, RootCoherent, RootKeys, RootKey, HasKey, EnteredFrom, Entry, Loaded, Locked;
    DirectoriesAreEntered(w, root, loaded, visited);
    forall n, v | Locked(es, n, v) ensures Loaded(loaded, n, v) {
      var t := LockedTarget(w, root, es, n, v);
      ReachedIsLoaded(w, root, loaded, t);
    }
  }

  /** Every reachable package's directory is among those loaded. */
  lemma DirectoriesAreEntered(w: World, root: Target, loaded: seq<Target>, visited: set<string>)
    requires RootCoherent(w, root)
    requires forall i :: 0 <= i < |loaded| ==> loaded[i].Found? && Reaches(w, root, loaded[i])
    requires forall k :: k in visited ==> HasKey(RootKeys(w), loaded, Some(k))
    requires root.Found? && w.canonical(root.manifest.root) in visited && EnteredFrom(w, loaded, 0, visited)
    ensures forall t :: Reaches(w, root, t) ==> HasKey(RootKeys(w), loaded, RootKey(w, t))
  {
    hide Reachable, KeyDeterminesSuccessors, Edge;
    forall i, v | 0 <= i < |loaded| && Edges(w)(loaded[i], v) ensures HasKey(RootKeys(w), loaded, RootKeys(w)(v)) {
      assert Entered(w, loaded[i], visited) && Edge(w, loaded[i], v);
    }
    WalkMeetsEveryKey(Edges(w), RootKeys(w), root, loaded);
  }

  lemma LockedTarget(w: World, root: Target, es: seq<LockPackage>, n: string, v: string) returns (t: Target)
    requires IsLockOf(w, root, es) && Locked(es, n, v)
    ensures Reaches(w, root, t) && Entry(t).name == n && Entry(t).version == v
  {
    hide Reaches, Entry, StrictlySorted, SameIdentity;
    var e :| e in es && e.name == n && e.version == v;
    t :| Reaches(w, root, t) && Entry(t) == e;
  }

  lemma ReachedIsLoaded(w: World, root: Target, loaded: seq<Target>, t: Target)
    requires RootCoherent(w, root) && Reaches(w, root, t) && HasKey(RootKeys(w), loaded, RootKey(w, t))
    requires forall i :: 0 <= i < |loaded| ==> loaded[i].Found? && Reaches(w, root, loaded[i])
    ensures Loaded(loaded, Entry(t).name, Entry(t).version)
  {
    hide Reachable, KeyDeterminesSuccessors, Labels;
    var i :| 0 <= i < |loaded| && RootKeys(w)(loaded[i]) == RootKey(w, t);
    assert t.Found?;
  }
}
