/** The registry pins a manifest asks for, said without the walk that collects them. */
module PinRequirements {
  import opened Wrappers
  import opened Packages
  import opened Reachability
  import opened LockGraph
  import opened Requirements
  import opened PinWalk

  /** Like `Requires`, but git checkouts are not looked into. */
  ghost predicate PinRequires(w: World, m: Manifest, n: Manifest) {
    exists d :: d in m.dependencies && !d.source.Git? && Satisfies(w, m, d, n)
  }

  ghost function PinRequirement(w: World): (Manifest, Manifest) -> bool { (m, n) => PinRequires(w, m, n) }

  ghost predicate PinNeeds(w: World, m: Manifest, n: Manifest) { Reachable(PinRequirement(w), m, n) }

  /** A registry dependency asks for the hash that its registry has for the package. */
  ghost predicate WantsPin(w: World, m: Manifest, d: Dependency, pin: RegistryPin) {
    d.source.Registry?
    && var registry := if m.registryPath.Some? then Some(w.join(m.root, m.registryPath.value)) else w.envRegistry;
    registry.Some? && var r := w.resolveRegistry(registry.value, d.name, d.version);
    && r.Some? && r.value.0.name == d.name && r.value.0.version == d.version
    && pin == RegistryPin(d.name, d.version, "registry", r.value.1)
  }

  ghost predicate IsWanted(w: World, root: Manifest, pin: RegistryPin) {
    exists m, d :: PinNeeds(w, root, m) && d in m.dependencies && WantsPin(w, m, d, pin)
  }

  /** All but git dependencies are met, or open for want of a registry. */
  ghost predicate IsPinSatisfied(w: World, m: Manifest) {
    forall d :: d in m.dependencies ==> d.source.Git? || IsOpen(w, m, d) || IsMet(w, m, d)
  }

  // ---------- the graph that is walked ----------

  lemma LeadsSatisfies(w: World, s: Target, d: Dependency, t: Target)
    requires s.Found? && Leads(w, s, d, t)
    ensures !d.source.Git? && Satisfies(w, s.manifest, d, t.manifest)
  {
    hide Follow, Satisfies;
    FollowSatisfies(w, s.manifest, d);
  }

  lemma PinEdgeIsRequired(w: World, s: Target, t: Target)
    requires PinEdge(w, s, t)
    ensures s.Found? && t.Found? && PinRequires(w, s.manifest, t.manifest)
  {
    hide Satisfies;
    var i :| 0 <= i < |s.manifest.dependencies| && Leads(w, s, s.manifest.dependencies[i], t);
    LeadsSatisfies(w, s, s.manifest.dependencies[i], t);
    assert s.manifest.dependencies[i] in s.manifest.dependencies;
  }

  lemma RequiredIsPinEdge(w: World, s: Target, n: Manifest) returns (t: Target)
    requires s.Found? && PinRequires(w, s.manifest, n)
    ensures t.Found? && t.manifest == n && PinEdge(w, s, t)
  {
    hide Follow, Satisfies;
    var d :| d in s.manifest.dependencies && !d.source.Git? && Satisfies(w, s.manifest, d, n);
    FollowSatisfies(w, s.manifest, d);
    t := Follow(w, s.manifest, d).value;
    var i :| 0 <= i < |s.manifest.dependencies| && s.manifest.dependencies[i] == d;
    assert Leads(w, s, s.manifest.dependencies[i], t);
  }

  lemma PinReachedIsNeeded(w: World, m: Manifest, t: Target)
    requires PinReaches(w, Workspace(m), t)
    ensures t.Found? && PinNeeds(w, m, t.manifest)
  {
    hide Reachable, PinEdge, PinRequires;
    var needed := (u: Target) => u.Found? && PinNeeds(w, m, u.manifest);
    ReachesItself(PinRequirement(w), m);
    forall s, u | Reachable(PinEdges(w), Workspace(m), s) && needed(s) && PinEdges(w)(s, u) ensures needed(u) {
      PinEdgeIsRequired(w, s, u);
      ReachesNext(PinRequirement(w), m, s.manifest, u.manifest);
    }
    ClosedHoldsReachable(PinEdges(w), needed, Workspace(m), t);
  }

  ghost predicate IsPinReached(w: World, m: Manifest, n: Manifest) {
    exists t: Target :: t.Found? && t.manifest == n && PinReaches(w, Workspace(m), t)
  }

  lemma NeededIsPinReached(w: World, m: Manifest, n: Manifest)
    requires PinNeeds(w, m, n)
    ensures IsPinReached(w, m, n)
  {
    hide Reachable, PinEdge, PinRequires;
    var reached := (k: Manifest) => IsPinReached(w, m, k);
    ReachesItself(PinEdges(w), Workspace(m));
    assert reached(m) by { assert Workspace(m).Found? && Workspace(m).manifest == m; }
    forall j, k | Reachable(PinRequirement(w), m, j) && reached(j) && PinRequirement(w)(j, k) ensures reached(k) {
      var s: Target :| s.Found? && s.manifest == j && PinReaches(w, Workspace(m), s);
      var t := RequiredIsPinEdge(w, s, k);
      ReachesNext(PinEdges(w), Workspace(m), s, t);
    }
    ClosedHoldsReachable(PinRequirement(w), reached, m, n);
  }

  /** What a followed dependency demands is what it wants. */
  lemma DemandIsWanted(w: World, s: Target, d: Dependency, pin: RegistryPin)
    requires s.Found?
    ensures WantsPin(w, s.manifest, d, pin) <==> exists t :: Leads(w, s, d, t) && Demands(t, pin)
  {
    if WantsPin(w, s.manifest, d, pin) {
      var t := Follow(w, s.manifest, d).value;
      assert Leads(w, s, d, t) && Demands(t, pin);
    }
  }

  lemma DirectlyWanted(w: World, s: Target, pin: RegistryPin)
    requires s.Found?
    ensures DemandsDirectly(w, s, pin) <==> exists d :: d in s.manifest.dependencies && WantsPin(w, s.manifest, d, pin)
  {
    hide Leads, Demands, WantsPin;
    var ds := s.manifest.dependencies;
    if DemandsDirectly(w, s, pin) {
      var t :| PinEdge(w, s, t) && Demands(t, pin);
      var i :| 0 <= i < |ds| && Leads(w, s, ds[i], t);
      DemandIsWanted(w, s, ds[i], pin);
      assert ds[i] in ds;
    }
    if d :| d in ds && WantsPin(w, s.manifest, d, pin) {
      DemandIsWanted(w, s, d, pin);
      var t :| Leads(w, s, d, t) && Demands(t, pin);
      var i :| 0 <= i < |ds| && ds[i] == d;
      assert PinEdge(w, s, t);
    }
  }

  /** The pins of the walk's graph are the pins asked for. */
  lemma NeededIsWanted(w: World, m: Manifest, pin: RegistryPin)
    ensures Needed(w, Workspace(m), pin) <==> IsWanted(w, m, pin)
  {
    hide PinReaches, PinNeeds, DemandsDirectly, WantsPin;
    if Needed(w, Workspace(m), pin) {
      var s :| PinReaches(w, Workspace(m), s) && DemandsDirectly(w, s, pin);
      PinReachedIsNeeded(w, m, s);
      DirectlyWanted(w, s, pin);
    }
    if IsWanted(w, m, pin) {
      var n, d :| PinNeeds(w, m, n) && d in n.dependencies && WantsPin(w, n, d, pin);
      NeededIsPinReached(w, m, n);
      var s: Target :| s.Found? && s.manifest == n && PinReaches(w, Workspace(m), s);
      DirectlyWanted(w, s, pin);
    }
  }

  lemma FollowedIsSatisfied(w: World, t: Target)
    requires t.Found?
    ensures PinFails(w, t) <==> !IsPinSatisfied(w, t.manifest)
  {
    hide Follow, IsMet, IsOpen;
    var m := t.manifest;
    forall d | d in m.dependencies
      ensures IsFollowed(w, m, d) <==> d.source.Git? || IsOpen(w, m, d) || IsMet(w, m, d)
    {
      FollowSatisfies(w, m, d);
    }
    if !IsPinSatisfied(w, m) {
      var d :| d in m.dependencies && !(d.source.Git? || IsOpen(w, m, d) || IsMet(w, m, d));
      var i :| 0 <= i < |m.dependencies| && m.dependencies[i] == d;
      assert !IsFollowed(w, m, m.dependencies[i]);
    }
  }

  // ---------- what a walk has looked at ----------

  /** Manifests that are looked into: all of their dependencies are met, what they lead to is
      looked into under its name and version, and every pin they ask for is among `pins`. */
  ghost predicate IsPinWalk(w: World, root: Manifest, ms: seq<Manifest>, pins: seq<RegistryPin>) {
    && root in ms
    && (forall m :: m in ms ==> PinNeeds(w, root, m) && IsPinSatisfied(w, m))
    && (forall m, d, pin :: m in ms && d in m.dependencies && WantsPin(w, m, d, pin) ==> pin in pins)
    && (forall m, n :: m in ms && PinRequires(w, m, n) ==> IsNamed(ms, n.name + "@" + n.version))
  }

  ghost predicate IsNamed(ms: seq<Manifest>, name: string) { exists m :: m in ms && m.name + "@" + m.version == name }

  function ManifestsOf(trail: seq<Target>): (ms: seq<Manifest>)
    requires forall i :: 0 <= i < |trail| ==> trail[i].Found?
    ensures |ms| == |trail| && forall i :: 0 <= i < |trail| ==> ms[i] == trail[i].manifest
  {
    seq(|trail|, i requires 0 <= i < |trail| => trail[i].manifest)
  }

  lemma AllFound(w: World, m: Manifest, trail: seq<Target>)
    requires forall i :: 0 <= i < |trail| ==> PinReaches(w, Workspace(m), trail[i])
    ensures forall i :: 0 <= i < |trail| ==> trail[i].Found? && PinNeeds(w, m, trail[i].manifest)
  {
    hide PinReaches, PinNeeds;
    forall i | 0 <= i < |trail| ensures trail[i].Found? && PinNeeds(w, m, trail[i].manifest) {
      PinReachedIsNeeded(w, m, trail[i]);
    }
  }

  lemma PinnedManifest(w: World, t: Target, visited: set<string>, pins: seq<RegistryPin>)
    requires t.Found? && Pinned(w, t, visited, pins)
    ensures IsPinSatisfied(w, t.manifest)
    ensures forall d, pin :: d in t.manifest.dependencies && WantsPin(w, t.manifest, d, pin) ==> pin in pins
    ensures forall n :: PinRequires(w, t.manifest, n) ==> n.name + "@" + n.version in visited
  {
    hide WantsPin, PinRequires, Leads, Demands, IsFollowed;
    var ds := t.manifest.dependencies;
    assert !PinFails(w, t);
    FollowedIsSatisfied(w, t);
    forall d, pin | d in ds && WantsPin(w, t.manifest, d, pin) ensures pin in pins {
      DemandIsWanted(w, t, d, pin);
      var u :| Leads(w, t, d, u) && Demands(u, pin);
      var i :| 0 <= i < |ds| && ds[i] == d;
      assert Taken(u, visited, pins);
    }
    forall n | PinRequires(w, t.manifest, n) ensures n.name + "@" + n.version in visited {
      var u := RequiredIsPinEdge(w, t, n);
      var i :| 0 <= i < |ds| && Leads(w, t, ds[i], u);
      assert Taken(u, visited, pins);
    }
  }

  lemma WalkIsPinWalk(w: World, m: Manifest, trail: seq<Target>, visited: set<string>, pins: seq<RegistryPin>)
    returns (ms: seq<Manifest>)
    requires trail != [] && trail[0] == Workspace(m)
    requires forall i :: 0 <= i < |trail| ==> PinReaches(w, Workspace(m), trail[i])
    requires forall k :: k in visited ==> HasKey(NameKey, trail, k)
    requires PinnedFrom(w, trail, 0, visited, pins)
    ensures IsPinWalk(w, m, ms, pins)
  {
    hide PinReaches, PinNeeds, Pinned, WantsPin, PinRequires, IsPinSatisfied;
    AllFound(w, m, trail);
    ms := ManifestsOf(trail);
    assert ms[0] == m;
    forall i | 0 <= i < |ms|
      ensures IsPinSatisfied(w, ms[i])
      ensures forall d, pin :: d in ms[i].dependencies && WantsPin(w, ms[i], d, pin) ==> pin in pins
      ensures forall n :: PinRequires(w, ms[i], n) ==> n.name + "@" + n.version in visited
    {
      assert Pinned(w, trail[i], visited, pins);
      PinnedManifest(w, trail[i], visited, pins);
    }
    forall k | k in visited ensures IsNamed(ms, k) {
      var i :| 0 <= i < |trail| && NameKey(trail[i]) == k;
      assert ms[i] in ms;
    }
  }
}
