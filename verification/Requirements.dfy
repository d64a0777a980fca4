/** What a manifest asks of the world, said without the walks that resolve it: each dependency
    wants one package, by name and version, from one source. */
module Requirements {
  import opened Wrappers
  import opened Order
  import opened Packages
  import opened Reachability
  import opened LockGraph

  /** The manifest that a dependency's source has to offer. */
  ghost predicate Provides(w: World, m: Manifest, d: Dependency, found: Manifest) {
    match d.source
    case Path(path) => w.loadPath(w.join(m.root, path)) == Some(found)
    case Registry =>
      var registry := if m.registryPath.Some? then Some(w.join(m.root, m.registryPath.value)) else w.envRegistry;
      registry.Some? && var r := w.resolveRegistry(registry.value, d.name, d.version); r.Some? && r.value.0 == found
    case Git(_) =>
      var r := w.loadGit(m.root, d);
      r.Some? && r.value.0 == found
  }

  /** ... and it is the package asked for. */
  ghost predicate Satisfies(w: World, m: Manifest, d: Dependency, found: Manifest) {
    Provides(w, m, d, found) && found.name == d.name && found.version == d.version
  }

  ghost predicate IsMet(w: World, m: Manifest, d: Dependency) { exists found :: Satisfies(w, m, d, found) }

  /** A registry dependency where there is no registry: the lockfile leaves it open. */
  predicate IsOpen(w: World, m: Manifest, d: Dependency) {
    d.source.Registry? && m.registryPath.None? && w.envRegistry.None?
  }

  ghost predicate IsSatisfied(w: World, m: Manifest) {
    w.validate(m) && forall d :: d in m.dependencies ==> IsOpen(w, m, d) || IsMet(w, m, d)
  }

  ghost predicate Requires(w: World, m: Manifest, n: Manifest) {
    exists d :: d in m.dependencies && Satisfies(w, m, d, n)
  }

  ghost function Requirement(w: World): (Manifest, Manifest) -> bool { (m, n) => Requires(w, m, n) }

  /** `n` is `m` or required by it, directly or not. */
  ghost predicate Needs(w: World, m: Manifest, n: Manifest) { Reachable(Requirement(w), m, n) }

  ghost predicate AllSatisfied(w: World, m: Manifest) { forall n :: Needs(w, m, n) ==> IsSatisfied(w, n) }

  // ---------- the graph that is walked ----------

  lemma FollowSatisfies(w: World, m: Manifest, d: Dependency)
    ensures Follow(w, m, d).Ok? <==> IsOpen(w, m, d) || IsMet(w, m, d)
    ensures Follow(w, m, d).Ok? ==> (Follow(w, m, d).value.Unresolved? <==> IsOpen(w, m, d))
    ensures forall found :: Satisfies(w, m, d, found) <==>
              Follow(w, m, d).Ok? && Follow(w, m, d).value.Found? && Follow(w, m, d).value.manifest == found
  {
    forall found
      ensures Satisfies(w, m, d, found) <==>
              Follow(w, m, d).Ok? && Follow(w, m, d).value.Found? && Follow(w, m, d).value.manifest == found
    {}
    if Follow(w, m, d).Ok? && Follow(w, m, d).value.Found? {
      assert Satisfies(w, m, d, Follow(w, m, d).value.manifest);
    }
  }

  lemma SoundIsSatisfied(w: World, t: Target)
    requires t.Found?
    ensures Sound(w, t) <==> IsSatisfied(w, t.manifest)
  {
    hide Follow, IsOpen, IsMet;
    var m := t.manifest;
    forall i | 0 <= i < |m.dependencies|
      ensures Follow(w, m, m.dependencies[i]).Ok? <==> IsOpen(w, m, m.dependencies[i]) || IsMet(w, m, m.dependencies[i])
    {
      FollowSatisfies(w, m, m.dependencies[i]);
    }
    forall d | d in m.dependencies
      ensures Follow(w, m, d).Ok? <==> IsOpen(w, m, d) || IsMet(w, m, d)
    {
      FollowSatisfies(w, m, d);
    }
  }

  lemma EdgeIsRequirement(w: World, s: Target, t: Target)
    requires s.Found? && t.Found? && Edge(w, s, t)
    ensures Requires(w, s.manifest, t.manifest)
  {
    hide Follow, Satisfies;
    var i :| 0 <= i < |s.manifest.dependencies| && Follow(w, s.manifest, s.manifest.dependencies[i]) == Ok(t);
    FollowSatisfies(w, s.manifest, s.manifest.dependencies[i]);
    assert s.manifest.dependencies[i] in s.manifest.dependencies;
  }

  lemma RequirementIsEdge(w: World, s: Target, n: Manifest) returns (t: Target)
    requires s.Found? && Requires(w, s.manifest, n)
    ensures t.Found? && t.manifest == n && Edge(w, s, t)
  {
    hide Follow, Satisfies;
    var d :| d in s.manifest.dependencies && Satisfies(w, s.manifest, d, n);
    FollowSatisfies(w, s.manifest, d);
    t := Follow(w, s.manifest, d).value;
    var i :| 0 <= i < |s.manifest.dependencies| && s.manifest.dependencies[i] == d;
  }

  lemma ReachedIsNeeded(w: World, m: Manifest, t: Target)
    requires Reaches(w, Workspace(m), t) && t.Found?
    ensures Needs(w, m, t.manifest)
  {
    hide Reachable, Edge, Requires;
    var needed := (u: Target) => u.Found? ==> Needs(w, m, u.manifest);
    ReachesItself(Requirement(w), m);
    forall s, u | Reachable(Edges(w), Workspace(m), s) && needed(s) && Edges(w)(s, u) ensures needed(u) {
      OnlyFoundLeads(w, s, u);
      if u.Found? {
        EdgeIsRequirement(w, s, u);
        ReachesNext(Requirement(w), m, s.manifest, u.manifest);
      }
    }
    ClosedHoldsReachable(Edges(w), needed, Workspace(m), t);
  }

  lemma OnlyFoundLeads(w: World, s: Target, t: Target)
    requires Edge(w, s, t)
    ensures s.Found?
  {}

  ghost predicate IsReached(w: World, m: Manifest, n: Manifest) {
    exists t: Target :: t.Found? && t.manifest == n && Reaches(w, Workspace(m), t)
  }

  lemma NeededIsReached(w: World, m: Manifest, n: Manifest)
    requires Needs(w, m, n)
    ensures IsReached(w, m, n)
  {
    hide Reachable, Edge, Requires;
    var reached := (k: Manifest) => IsReached(w, m, k);
    ReachesItself(Edges(w), Workspace(m));
    assert reached(m) by { assert Workspace(m).Found? && Workspace(m).manifest == m; }
    forall j, k | Reachable(Requirement(w), m, j) && reached(j) && Requirement(w)(j, k) ensures reached(k) {
      var s: Target :| s.Found? && s.manifest == j && Reaches(w, Workspace(m), s);
      var t := RequirementIsEdge(w, s, k);
      ReachesNext(Edges(w), Workspace(m), s, t);
    }
    ClosedHoldsReachable(Requirement(w), reached, m, n);
  }

  /** The graph resolves exactly if every package needed is satisfied. */
  lemma AllSoundIsSatisfied(w: World, m: Manifest)
    ensures AllSound(w, Workspace(m)) <==> AllSatisfied(w, m)
  {
    hide Reaches, Needs, Sound, IsSatisfied;
    if AllSatisfied(w, m) {
      forall t | Reaches(w, Workspace(m), t) ensures Sound(w, t) {
        if t.Found? {
          ReachedIsNeeded(w, m, t);
          SoundIsSatisfied(w, t);
        } else {
          OpenIsSound(w, t);
        }
      }
    }
    if AllSound(w, Workspace(m)) {
      forall n | Needs(w, m, n) ensures IsSatisfied(w, n) {
        NeededIsReached(w, m, n);
        var t: Target :| t.Found? && t.manifest == n && Reaches(w, Workspace(m), t);
        SoundIsSatisfied(w, t);
      }
    }
  }

  lemma OpenIsSound(w: World, t: Target)
    requires t.Unresolved?
    ensures Sound(w, t)
  {}

  // ---------- what an entry records ----------

  /** What is recorded of a manifest, wherever it was found: the labels of its dependencies are
      sorted. */
  ghost predicate IsEntryOf(e: LockPackage, m: Manifest) {
    && e.name == m.name && e.version == m.version && e.language == Some(m.language)
    && e.compatibility == Some(m.compatibility) && e.manifestSchema == Some(m.manifestSchema)
    && multiset(e.dependencies) == multiset(LabelsOf(m.dependencies)) && Sorted(e.dependencies, CompareString)
  }

  function LabelsOf(ds: seq<Dependency>): seq<string> {
    seq(|ds|, i requires 0 <= i < |ds| => ds[i].name + "@" + ds[i].version + " " + ds[i].source.LockSource())
  }

  /** A package that satisfies a dependency, with the source it came from. */
  ghost predicate IsEntryFor(w: World, m: Manifest, d: Dependency, e: LockPackage) {
    exists found :: Satisfies(w, m, d, found) && IsEntryOf(e, found) && IsSourced(w, m, d, e)
  }

  ghost predicate IsSourced(w: World, m: Manifest, d: Dependency, e: LockPackage) {
    match d.source
    case Path(path) => e.source == "path:" + path && e.contentHash == None
    case Registry =>
      var registry := if m.registryPath.Some? then Some(w.join(m.root, m.registryPath.value)) else w.envRegistry;
      && registry.Some? && w.resolveRegistry(registry.value, d.name, d.version).Some?
      && e.source == "registry" && e.contentHash == Some(w.resolveRegistry(registry.value, d.name, d.version).value.1)
    case Git(git) =>
      && w.loadGit(m.root, d).Some? && e.contentHash == None
      && e.source == "git:" + git.url + "#rev:" + w.loadGit(m.root, d).value.1
  }

  /** An open dependency is recorded by name, version and source alone. */
  ghost predicate IsOpenEntry(w: World, m: Manifest, d: Dependency, e: LockPackage) {
    IsOpen(w, m, d) && e == LockPackage(d.name, d.version, "registry", None, None, None, None, [])
  }

  ghost predicate IsDeclared(w: World, root: Manifest, m: Manifest, d: Dependency) {
    Needs(w, root, m) && d in m.dependencies
  }

  /** An entry of the lockfile: the workspace's, or one for a dependency of something needed. */
  ghost predicate IsRecorded(w: World, root: Manifest, e: LockPackage) {
    || (IsEntryOf(e, root) && e.source == "workspace" && e.contentHash == None)
    || exists m, d :: IsDeclared(w, root, m, d) && (IsEntryFor(w, m, d, e) || IsOpenEntry(w, m, d, e))
  }

  lemma FoundEntry(t: Target)
    requires t.Found?
    ensures IsEntryOf(Entry(t), t.manifest)
  {
    hide CompareString;
    var ds := t.manifest.dependencies;
    CompareStringIsTotalOrder();
    var labels := seq(|ds|, i requires 0 <= i < |ds| => DependencyLabel(ds[i]));
    SortBySorts(labels, CompareString);
    assert labels == LabelsOf(ds);
  }

  lemma FollowedEntry(w: World, m: Manifest, d: Dependency)
    requires Follow(w, m, d).Ok?
    ensures var e := Entry(Follow(w, m, d).value); IsEntryFor(w, m, d, e) || IsOpenEntry(w, m, d, e)
  {
    hide IsEntryOf, Labels;
    FollowSatisfies(w, m, d);
    var t := Follow(w, m, d).value;
    if t.Found? {
      FoundEntry(t);
      assert IsSourced(w, m, d, Entry(t));
    }
  }

  /** Every entry is accounted for. */
  lemma ReachedIsRecorded(w: World, m: Manifest, t: Target)
    requires Reaches(w, Workspace(m), t)
    ensures IsRecorded(w, m, Entry(t))
  {
    hide Reachable, Edge, IsEntryFor, IsOpenEntry, Needs, IsEntryOf, Entry;
    var recorded := (u: Target) => IsRecorded(w, m, Entry(u));
    FoundEntry(Workspace(m));
    WorkspaceSource(m);
    forall s, u | Reachable(Edges(w), Workspace(m), s) && recorded(s) && Edges(w)(s, u) ensures recorded(u) {
      OnlyFoundLeads(w, s, u);
      ReachedIsNeeded(w, m, s);
      var d := EdgeDependency(w, s, u);
      FollowedEntry(w, s.manifest, d);
      assert IsDeclared(w, m, s.manifest, d);
    }
    ClosedHoldsReachable(Edges(w), recorded, Workspace(m), t);
  }

  lemma WorkspaceSource(m: Manifest)
    ensures Entry(Workspace(m)).source == "workspace" && Entry(Workspace(m)).contentHash == None
  {
    hide Labels;
  }

  lemma EdgeDependency(w: World, s: Target, t: Target) returns (d: Dependency)
    requires s.Found? && Edge(w, s, t)
    ensures d in s.manifest.dependencies && Follow(w, s.manifest, d) == Ok(t)
  {
    hide Follow;
    var i :| 0 <= i < |s.manifest.dependencies| && Follow(w, s.manifest, s.manifest.dependencies[i]) == Ok(t);
    d := s.manifest.dependencies[i];
  }

  /** Where a dependency was resolved, its entry bears the name and version asked for. */
  lemma FollowedName(w: World, m: Manifest, d: Dependency)
    requires Follow(w, m, d).Ok?
    ensures var e := Entry(Follow(w, m, d).value); e.name == d.name && e.version == d.version
  {
    hide Labels;
  }

  /** What everything needed asks for is reached, under the name and version asked for. */
  lemma DeclaredIsReached(w: World, root: Manifest, m: Manifest, d: Dependency) returns (t: Target)
    requires IsDeclared(w, root, m, d) && AllSound(w, Workspace(root))
    ensures Reaches(w, Workspace(root), t) && Entry(t).name == d.name && Entry(t).version == d.version
  {
    hide Reachable, Follow, Entry, Needs;
    NeededIsReached(w, root, m);
    var s: Target :| s.Found? && s.manifest == m && Reaches(w, Workspace(root), s);
    assert Sound(w, s);
    var i :| 0 <= i < |m.dependencies| && m.dependencies[i] == d;
    t := Follow(w, m, d).value;
    assert Edge(w, s, t);
    ReachesNext(Edges(w), Workspace(root), s, t);
    FollowedName(w, m, d);
  }

  // ---------- lists of entries ----------

  /** The manifest of an entry is satisfied: each of its dependencies is resolved to the package
      asked for. */
  ghost predicate IsSatisfiedEntry(w: World, root: Manifest, e: LockPackage) {
    exists m :: IsEntryOf(e, m) && Needs(w, root, m) && IsSatisfied(w, m)
  }

  /** The workspace first, and nothing that is not asked for or not satisfied. */
  ghost predicate IsAccounted(w: World, root: Manifest, es: seq<LockPackage>) {
    && es != [] && IsEntryOf(es[0], root) && es[0].source == "workspace"
    && forall e :: e in es ==> IsRecorded(w, root, e) && (e.language.Some? ==> IsSatisfiedEntry(w, root, e))
  }

  ghost predicate IsListed(es: seq<LockPackage>, d: Dependency) {
    exists e :: e in es && e.name == d.name && e.version == d.version
  }

  /** Nothing asked for is missing. */
  ghost predicate IsExhaustive(w: World, root: Manifest, es: seq<LockPackage>) {
    forall m, d :: IsDeclared(w, root, m, d) ==> IsListed(es, d)
  }

  lemma SoundEntry(w: World, m: Manifest, t: Target)
    requires Reaches(w, Workspace(m), t) && Sound(w, t)
    ensures IsRecorded(w, m, Entry(t))
    ensures Entry(t).language.Some? ==> IsSatisfiedEntry(w, m, Entry(t))
  {
    hide Reaches, Needs, Sound, IsSatisfied, IsEntryOf, IsRecorded, Labels;
    ReachedIsRecorded(w, m, t);
    if t.Found? {
      FoundEntry(t);
      ReachedIsNeeded(w, m, t);
      SoundIsSatisfied(w, t);
    }
  }
}
