/** What `resolve_lock_entries` returns: the walk, then a sort of everything but the workspace. */
module Lockfile {
  import opened Wrappers
  import opened Order
  import opened Packages
  import opened Reachability
  import opened LockGraph
  import opened LockWalk
  import opened Requirements

  /** The lock entries of a graph, described without any walk: the workspace first, then
      exactly the other reachable entries in strict order, so no two share an identity. */
  ghost predicate IsLockOf(w: World, root: Target, es: seq<LockPackage>) {
    && es != [] && es[0] == Entry(root)
    && StrictlySorted(es[1..], CompareEntries)
    && (forall e :: e in es[1..] ==> !SameIdentity(e, es[0]))
    && (forall e :: e in es ==> exists t :: Reaches(w, root, t) && Entry(t) == e)
    && (forall t :: Reaches(w, root, t) ==> Entry(t) in es)
  }

  /** At most one list fits, whatever order dependencies were declared or visited in. */
  lemma LockIsUnique(w: World, root: Target, es: seq<LockPackage>, fs: seq<LockPackage>)
    requires IsLockOf(w, root, es) && IsLockOf(w, root, fs)
    ensures es == fs
  {
    hide CompareEntries, Entry, Reaches;
    CompareEntriesIsTotalPreorder();
    forall e ensures e in es[1..] <==> e in fs[1..] {
      if e in es[1..] { TailMembers(w, root, es, fs, e); }
      if e in fs[1..] { TailMembers(w, root, fs, es, e); }
    }
    StrictlySortedIsUnique(es[1..], fs[1..], CompareEntries);
  }

  lemma TailMembers(w: World, root: Target, es: seq<LockPackage>, fs: seq<LockPackage>, e: LockPackage)
    requires IsLockOf(w, root, es) && IsLockOf(w, root, fs) && e in es[1..]
    ensures e in fs[1..]
  {
    hide CompareEntries, Entry, Reaches, StrictlySorted;
    assert e in es;
    assert e in fs;
    assert e != fs[0];
  }

  // ---------- different keys, different identities ----------

  /** Only what came out of a registry has source `registry` and a hash. */
  ghost predicate WellSourced(t: Target) {
    match t
    case Found(_, source, hash) => hash.Some? <==> source == "registry"
    case Unresolved(d) => d.source.Registry?
  }

  lemma ReachableIsWellSourced(w: World, m: Manifest, t: Target)
    requires Reaches(w, Workspace(m), t)
    ensures WellSourced(t)
  {
    forall s, u | Reachable(Edges(w), Workspace(m), s) && WellSourced(s) && Edges(w)(s, u) ensures WellSourced(u) {
      assert Edge(w, s, u);
      var i :| 0 <= i < |s.manifest.dependencies| && Follow(w, s.manifest, s.manifest.dependencies[i]) == Ok(u);
      FollowIsWellSourced(w, s.manifest, s.manifest.dependencies[i]);
    }
    assert "workspace"[0] != "registry"[0];
    ClosedHoldsReachable(Edges(w), WellSourced, Workspace(m), t);
  }

  lemma FollowIsWellSourced(w: World, m: Manifest, d: Dependency)
    ensures Follow(w, m, d).Ok? ==> WellSourced(Follow(w, m, d).value)
  {
    if Follow(w, m, d).Ok? {
      match d.source {
        case Registry =>
        case Path(path) => assert d.source.LockSource()[0] == 'p' != "registry"[0];
        case Git(git) =>
          forall head ensures git.LockSourceWithRev(head)[0] == 'g' {}
          assert 'g' != "registry"[0];
      }
    }
  }

  lemma IdentityDeterminesKey(s: Target, t: Target)
    requires WellSourced(s) && WellSourced(t) && SameIdentity(Entry(s), Entry(t))
    ensures Key(s) == Key(t)
  {}

  // ---------- the method ----------

  /** Targets reachable from `root`, one for each key: all of them resolve, and what they
      depend on is represented by its key. */
  ghost predicate IsWalk(w: World, root: Target, trail: seq<Target>) {
    && trail != [] && trail[0] == root
    && (forall t :: t in trail ==> Reaches(w, root, t) && Sound(w, t))
    && (forall i, j :: 0 <= i < j < |trail| ==> Key(trail[i]) != Key(trail[j]))
    && (forall t, u :: t in trail && Edges(w)(t, u) ==> HasKey(Key, trail, Key(u)))
  }

  /** The entries of a walk: the first one, then the others in strict order. */
  ghost predicate ListsWalk(trail: seq<Target>, es: seq<LockPackage>) {
    && |es| == |trail| > 0 && es[0] == Entry(trail[0])
    && StrictlySorted(es[1..], CompareEntries)
    && (forall e :: e in es[1..] ==> !SameIdentity(e, es[0]))
    && (forall t :: t in trail ==> Entry(t) in es)
    && (forall e :: e in es ==> exists t :: t in trail && Entry(t) == e)
  }

  /** Success lists one target for each key that a walk meets, and all of those resolve;
      when a key determines what it stands for, that is everything reachable. Failure means
      that something reachable cannot be resolved. */
  method ResolveLockEntries(w: World, manifest: Manifest, ghost keys: set<string>)
    returns (r: Result<seq<LockPackage>, LoadError>)
    requires KeysWithin(w, Workspace(manifest), keys)
    ensures r.Err? ==> !AllSound(w, Workspace(manifest))
    ensures r.Ok? ==> exists trail :: IsWalk(w, Workspace(manifest), trail) && ListsWalk(trail, r.value)
    ensures r.Ok? && Coherent(w, Workspace(manifest)) ==>
              AllSound(w, Workspace(manifest)) && IsLockOf(w, Workspace(manifest), r.value)
    ensures r.Err? ==> !AllSatisfied(w, manifest)
    ensures r.Ok? ==> IsAccounted(w, manifest, r.value)
    ensures r.Ok? && Coherent(w, Workspace(manifest)) ==>
              AllSatisfied(w, manifest) && IsExhaustive(w, manifest, r.value)
  {
    hide Sound, Key, Entry, CompareEntries, Settled, IsWalk, ListsWalk, IsLockOf, AllSound, AllSatisfied, IsAccounted,
      IsExhaustive;
    AllSoundIsSatisfied(w, manifest);
    ghost var root := Workspace(manifest);
    ReachesItself(Edges(w), root);
    var resolver := new LockResolver();
    var walk := resolver.ResolveManifest(w, Workspace(manifest), root, keys);
    if walk.Err? {
      SomethingUnsound(w, root);
      return Err(walk.error);
    }
    var packages := resolver.packages;
    if |packages| > 1 {
      packages := packages[..1] + SortBy(packages[1..], CompareEntries);
    }
    r := Ok(packages);
    TrailIsWalk(w, root, resolver.trail, resolver.visited);
    WalkIsListed(w, manifest, resolver.trail, resolver.packages, packages);
    WalkIsAccounted(w, manifest, resolver.trail, packages);
    if Coherent(w, root) {
      CoherentWalk(w, root, resolver.trail, packages);
      LockIsExhaustive(w, manifest, packages);
    }
  }

  lemma SomethingUnsound(w: World, root: Target)
    requires exists t :: Reaches(w, root, t) && !Sound(w, t)
    ensures !AllSound(w, root)
  {
    hide Sound, Reaches;
  }

  lemma TrailIsWalk(w: World, root: Target, trail: seq<Target>, visited: set<string>)
    requires trail != [] && trail[0] == root
    requires forall i :: 0 <= i < |trail| ==> Reaches(w, root, trail[i])
    requires forall i, j :: 0 <= i < j < |trail| ==> Key(trail[i]) != Key(trail[j])
    requires forall k :: k in visited ==> HasKey(Key, trail, k)
    requires SettledFrom(w, trail, 0, visited)
    ensures IsWalk(w, root, trail)
  {
    hide Sound, Key, Settled, Reaches;
    forall t | t in trail ensures Settled(w, t, visited) && Sound(w, t) {
      var i :| 0 <= i < |trail| && trail[i] == t;
      assert Settled(w, trail[i], visited);
      SettledIsSound(w, trail[i], visited);
    }
    forall t, u | t in trail && Edges(w)(t, u) ensures HasKey(Key, trail, Key(u)) {
      assert Settled(w, t, visited) && Edge(w, t, u);
      SettledFollows(w, t, u, visited);
    }
  }

  lemma SettledFollows(w: World, t: Target, u: Target, visited: set<string>)
    requires Settled(w, t, visited) && Edge(w, t, u)
    ensures Key(u) in visited
  {
    hide Key, Follow;
  }

  lemma WalkIsListed(w: World, m: Manifest, trail: seq<Target>, packages: seq<LockPackage>, sorted: seq<LockPackage>)
    requires |packages| == |trail| > 0 && trail[0] == Workspace(m)
    requires forall i :: 0 <= i < |trail| ==> packages[i] == Entry(trail[i]) && Reaches(w, Workspace(m), trail[i])
    requires forall i, j :: 0 <= i < j < |trail| ==> Key(trail[i]) != Key(trail[j])
    requires sorted == if |packages| > 1 then packages[..1] + SortBy(packages[1..], CompareEntries) else packages
    ensures ListsWalk(trail, sorted)
  {
    hide Key, Entry, CompareEntries, Reaches;
    forall i, j | 0 <= i < j < |packages| ensures !SameIdentity(packages[i], packages[j]) {
      ReachableIsWellSourced(w, m, trail[i]);
      ReachableIsWellSourced(w, m, trail[j]);
      if SameIdentity(packages[i], packages[j]) {
        IdentityDeterminesKey(trail[i], trail[j]);
      }
    }
    SortTail(packages, sorted);
    forall e | e in sorted ensures exists t :: t in trail && Entry(t) == e {
      var i :| 0 <= i < |packages| && packages[i] == e;
      assert trail[i] in trail;
    }
    forall t | t in trail ensures Entry(t) in sorted {
      var i :| 0 <= i < |trail| && trail[i] == t;
      assert packages[i] in packages;
    }
  }

  /** When keys determine entries and dependencies, a walk represents everything reachable. */
  lemma CoherentWalk(w: World, root: Target, trail: seq<Target>, es: seq<LockPackage>)
    requires IsWalk(w, root, trail) && ListsWalk(trail, es) && Coherent(w, root)
    ensures AllSound(w, root) && IsLockOf(w, root, es)
  {
    hide Sound, Key, Entry, Reachable, KeyDeterminesSuccessors, CompareEntries;
    WalkMeetsEveryKey(Edges(w), Key, root, trail);
    forall t | Reaches(w, root, t) ensures Sound(w, t) && Entry(t) in es {
      assert HasKey(Key, trail, Key(t));
      var i :| 0 <= i < |trail| && Key(trail[i]) == Key(t);
      assert trail[i] in trail;
    }
  }

  lemma WalkIsAccounted(w: World, m: Manifest, trail: seq<Target>, es: seq<LockPackage>)
    requires IsWalk(w, Workspace(m), trail) && ListsWalk(trail, es)
    ensures IsAccounted(w, m, es)
  {
    hide Reaches, Sound, Key, Entry, CompareEntries, SameIdentity, StrictlySorted, IsRecorded, IsSatisfiedEntry,
      IsEntryOf;
    FoundEntry(Workspace(m));
    WorkspaceSource(m);
    forall e | e in es
      ensures IsRecorded(w, m, e) && (e.language.Some? ==> IsSatisfiedEntry(w, m, e))
    {
      var t :| t in trail && Entry(t) == e;
      SoundEntry(w, m, t);
    }
  }

  lemma LockIsExhaustive(w: World, m: Manifest, es: seq<LockPackage>)
    requires IsLockOf(w, Workspace(m), es) && AllSound(w, Workspace(m))
    ensures IsExhaustive(w, m, es)
  {
    hide Reaches, Sound, Entry, CompareEntries, SameIdentity, StrictlySorted, IsDeclared, AllSound;
    forall n, d | IsDeclared(w, m, n, d) ensures IsListed(es, d) {
      var t := DeclaredIsReached(w, m, n, d);
      assert Entry(t) in es;
    }
  }

  /** Sorting all but the first of some entries with different identities. */
  lemma SortTail(packages: seq<LockPackage>, sorted: seq<LockPackage>)
    requires packages != []
    requires forall i, j :: 0 <= i < j < |packages| ==> !SameIdentity(packages[i], packages[j])
    requires sorted == if |packages| > 1 then packages[..1] + SortBy(packages[1..], CompareEntries) else packages
    ensures |sorted| == |packages| && sorted[0] == packages[0] && StrictlySorted(sorted[1..], CompareEntries)
    ensures forall e :: e in sorted <==> e in packages
    ensures forall e :: e in sorted[1..] ==> !SameIdentity(e, sorted[0])
  {
    hide CompareEntries, SameIdentity;
    if |packages| > 1 {
      CompareEntriesIsTotalPreorder();
      var tail := packages[1..];
      SortBySortsStrictly(tail, CompareEntries);
      assert sorted[1..] == SortBy(tail, CompareEntries);
      assert packages == packages[..1] + tail && sorted == packages[..1] + sorted[1..];
      forall e ensures e in sorted[1..] <==> e in tail {
        assert e in multiset(sorted[1..]) <==> e in multiset(tail);
      }
      forall e | e in tail ensures !SameIdentity(e, packages[0]) {
        var j :| 0 <= j < |tail| && tail[j] == e;
        assert packages[j + 1] == e && !SameIdentity(packages[0], e);
        SameIdentitySymmetric(packages[0], e);
      }
    }
  }

  lemma SameIdentitySymmetric(x: LockPackage, y: LockPackage)
    ensures SameIdentity(x, y) <==> SameIdentity(y, x)
  {}

  lemma SettledIsSound(w: World, t: Target, visited: set<string>)
    requires Settled(w, t, visited)
    ensures Sound(w, t)
  {
    hide Key, Follow;
  }
}
