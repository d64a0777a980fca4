/** The second walk of `package.rs`: re-deriving the registry pins a lockfile must hold. */
module PinWalk {
  import opened Wrappers
  import opened Packages
  import opened Reachability
  import opened LockGraph

  datatype RegistryPin = RegistryPin(name: string, version: string, source: string, contentHash: string)

  /** This walk's visited key: neither source nor hash. */
  function NameKey(t: Target): string {
    match t
    case Found(m, _, _) => m.name + "@" + m.version
    case Unresolved(d) => d.name + "@" + d.version
  }

  /** The edges this walk follows: no git dependencies and nothing unresolved. */
  ghost predicate PinEdge(w: World, s: Target, t: Target) {
    s.Found? && exists i :: 0 <= i < |s.manifest.dependencies| && Leads(w, s, s.manifest.dependencies[i], t)
  }

  ghost predicate Leads(w: World, s: Target, d: Dependency, t: Target)
    requires s.Found?
  {
    !d.source.Git? && t.Found? && Follow(w, s.manifest, d) == Ok(t)
  }

  ghost function PinEdges(w: World): (Target, Target) -> bool { (s, t) => PinEdge(w, s, t) }

  ghost predicate PinReaches(w: World, root: Target, t: Target) { Reachable(PinEdges(w), root, t) }

  /** The pin a registry package demands. */
  ghost predicate Demands(t: Target, pin: RegistryPin) {
    t.Found? && t.hash.Some? && pin == RegistryPin(t.manifest.name, t.manifest.version, t.source, t.hash.value)
  }

  /** A direct registry dependency of `s` demands this pin. */
  ghost predicate DemandsDirectly(w: World, s: Target, pin: RegistryPin) {
    exists t :: PinEdge(w, s, t) && Demands(t, pin)
  }

  /** The pins a lockfile must hold for `root`, described without any walk. */
  ghost predicate Needed(w: World, root: Target, pin: RegistryPin) {
    exists s :: PinReaches(w, root, s) && DemandsDirectly(w, s, pin)
  }

  /** Name and version determine what a package depends on and which pins it demands. */
  ghost predicate NameCoherent(w: World, root: Target) {
    && KeyDeterminesSuccessors(PinEdges(w), NameKey, root)
    && forall s, t, pin :: PinReaches(w, root, s) && PinReaches(w, root, t) && NameKey(s) == NameKey(t) ==>
         (DemandsDirectly(w, s, pin) <==> DemandsDirectly(w, t, pin))
  }

  ghost predicate NamesWithin(w: World, root: Target, names: set<string>) {
    forall t :: PinReaches(w, root, t) ==> NameKey(t) in names
  }

  // ---------- the walk ----------

  /** The first `n` dependencies are followed and their pins taken. */
  ghost predicate PinnedUpTo(w: World, t: Target, n: nat, visited: set<string>, pins: seq<RegistryPin>)
    requires t.Found? && n <= |t.manifest.dependencies|
  {
    && (forall i :: 0 <= i < n ==> IsFollowed(w, t.manifest, t.manifest.dependencies[i]))
    && (forall i, u :: 0 <= i < n && Leads(w, t, t.manifest.dependencies[i], u) ==> Taken(u, visited, pins))
  }

  /** Git dependencies are not followed; all others resolve. */
  predicate IsFollowed(w: World, m: Manifest, d: Dependency) { d.source.Git? || Follow(w, m, d).Ok? }

  /** Something this walk follows does not resolve. */
  ghost predicate PinFails(w: World, t: Target) {
    t.Found? && exists i :: 0 <= i < |t.manifest.dependencies| && !IsFollowed(w, t.manifest, t.manifest.dependencies[i])
  }

  ghost predicate Taken(u: Target, visited: set<string>, pins: seq<RegistryPin>) {
    NameKey(u) in visited && forall pin :: Demands(u, pin) ==> pin in pins
  }

  ghost predicate Pinned(w: World, t: Target, visited: set<string>, pins: seq<RegistryPin>) {
    t.Found? ==> PinnedUpTo(w, t, |t.manifest.dependencies|, visited, pins)
  }

  ghost predicate PinnedFrom(w: World, trail: seq<Target>, from: nat, visited: set<string>, pins: seq<RegistryPin>) {
    forall i :: from <= i < |trail| ==> Pinned(w, trail[i], visited, pins)
  }

  class PinCollector {
    var visited: set<string>
    var pins: seq<RegistryPin>
    ghost var trail: seq<Target>

    constructor ()
      ensures visited == {} && pins == [] && trail == []
    {
      visited, pins, trail := {}, [], [];
    }

    ghost predicate Valid(w: World, root: Target)
      reads this
    {
      && (forall i :: 0 <= i < |trail| ==> PinReaches(w, root, trail[i]))
      && (forall k :: k in visited ==> HasKey(NameKey, trail, k))
      && (forall pin :: pin in pins ==> Needed(w, root, pin))
    }

    /** `collect_registry_lock_pins`: only needed pins are taken, everything newly visited is
        pinned, and a failure is a package that cannot be resolved. */
    method CollectPins(w: World, t: Target, ghost root: Target, ghost names: set<string>)
      returns (r: Result<(), LoadError>)
      requires t.Found? && PinReaches(w, root, t) && NamesWithin(w, root, names) && Valid(w, root)
      modifies this
      ensures Valid(w, root) && old(trail) <= trail && old(visited) <= visited && old(pins) <= pins
      ensures r.Ok? ==> NameKey(t) in visited && PinnedFrom(w, trail, |old(trail)|, visited, pins)
      ensures r.Ok? && old(trail) == [] ==> trail != [] && trail[0] == t
      ensures r.Err? ==> exists u :: PinReaches(w, root, u) && PinFails(w, u)
      decreases names - visited
    {
      hide NameKey, Follow, Reachable, Valid, PinnedUpTo, Pinned;
      if NameKey(t) in visited {
        SomethingVisited(w, root, NameKey(t));
        return Ok(());
      }
      Visit(w, t, root);
      ghost var start := |trail|;
      PinnedAtStart(w, t, visited, pins);

      var ds := t.manifest.dependencies;
      for i := 0 to |ds|
        invariant Valid(w, root) && old(trail) + [t] <= trail && old(visited) + {NameKey(t)} <= visited
                  && old(pins) <= pins
        invariant PinnedUpTo(w, t, i, visited, pins) && PinnedFrom(w, trail, start, visited, pins)
      {
        ghost var seen, taken, path := visited, pins, trail;
        if ds[i].source.Registry? && DiscoverRegistry(w, t.manifest).None? {
          UnresolvedLeadsNowhere(w, t, ds[i]);
          PinnedByStep(w, t, i, seen, visited, taken, pins);
          continue;
        }
        if ds[i].source.Git? {
          PinnedByStep(w, t, i, seen, visited, taken, pins);
          continue;
        }
        var next := Follow(w, t.manifest, ds[i]);
        if next.Err? {
          assert !IsFollowed(w, t.manifest, ds[i]);
          assert PinFails(w, t);
          return Err(next.error);
        }
        FollowIsFound(w, t.manifest, ds[i]);
        LeadsReaches(w, root, t, i, next.value);
        if ds[i].source.Registry? {
          TakePin(w, t, i, next.value, root);
        }
        var sub := CollectPins(w, next.value, root, names);
        if sub.Err? {
          return sub;
        }
        PinnedByStep(w, t, i, seen, visited, taken, pins);
        PinnedFromGrows(w, path, trail, start, seen, visited, taken, pins);
      }
      PinnedWhole(w, t, trail, start, visited, pins);
      r := Ok(());
    }

    lemma SomethingVisited(w: World, root: Target, k: string)
      requires Valid(w, root) && k in visited
      ensures trail != []
    {
      hide NameKey, PinReaches, Needed;
      assert HasKey(NameKey, trail, k);
    }

    method Visit(w: World, t: Target, ghost root: Target)
      requires PinReaches(w, root, t) && Valid(w, root) && NameKey(t) !in visited
      modifies this
      ensures Valid(w, root) && trail == old(trail) + [t] && visited == old(visited) + {NameKey(t)} && pins == old(pins)
    {
      hide NameKey, PinReaches, Needed;
      visited := visited + {NameKey(t)};
      trail := trail + [t];
      forall k | k in visited ensures HasKey(NameKey, trail, k) {
        if k in old(visited) {
          var i :| 0 <= i < |old(trail)| && NameKey(old(trail)[i]) == k;
          assert trail[i] == old(trail)[i];
        } else {
          assert trail[|old(trail)|] == t;
        }
      }
    }

    method TakePin(w: World, t: Target, ghost i: nat, u: Target, ghost root: Target)
      requires t.Found? && u.Found? && u.hash.Some? && PinReaches(w, root, t) && Valid(w, root)
      requires i < |t.manifest.dependencies| && Leads(w, t, t.manifest.dependencies[i], u)
      modifies this
      ensures Valid(w, root) && trail == old(trail) && visited == old(visited)
      ensures old(pins) <= pins && forall pin :: Demands(u, pin) ==> pin in pins
    {
      hide NameKey, PinReaches, Leads, HasKey;
      var pin := RegistryPin(u.manifest.name, u.manifest.version, u.source, u.hash.value);
      assert PinEdge(w, t, u) && Demands(u, pin);
      assert DemandsDirectly(w, t, pin);
      assert Needed(w, root, pin);
      pins := pins + [pin];
    }
  }

  // ---------- steps of the walk ----------

  lemma FollowIsFound(w: World, m: Manifest, d: Dependency)
    requires Follow(w, m, d).Ok? && !(d.source.Registry? && DiscoverRegistry(w, m).None?)
    ensures Follow(w, m, d).value.Found?
    ensures d.source.Registry? ==> Follow(w, m, d).value.hash.Some?
    ensures d.source.Path? ==> Follow(w, m, d).value.hash.None?
  {}

  lemma UnresolvedLeadsNowhere(w: World, t: Target, d: Dependency)
    requires t.Found? && d.source.Registry? && DiscoverRegistry(w, t.manifest).None?
    ensures IsFollowed(w, t.manifest, d) && forall u :: !Leads(w, t, d, u)
  {}

  lemma LeadsReaches(w: World, root: Target, t: Target, i: nat, u: Target)
    requires t.Found? && PinReaches(w, root, t) && i < |t.manifest.dependencies|
             && Leads(w, t, t.manifest.dependencies[i], u)
    ensures PinReaches(w, root, u)
  {
    hide Reachable, Leads;
    ReachesNext(PinEdges(w), root, t, u);
  }

  lemma PinnedAtStart(w: World, t: Target, visited: set<string>, pins: seq<RegistryPin>)
    requires t.Found?
    ensures PinnedUpTo(w, t, 0, visited, pins)
  {}

  lemma PinnedByStep(w: World, t: Target, i: nat, visited: set<string>, more: set<string>,
                     pins: seq<RegistryPin>, morePins: seq<RegistryPin>)
    requires t.Found? && i < |t.manifest.dependencies| && visited <= more && pins <= morePins
    requires PinnedUpTo(w, t, i, visited, pins) && IsFollowed(w, t.manifest, t.manifest.dependencies[i])
    requires forall u :: Leads(w, t, t.manifest.dependencies[i], u) ==> Taken(u, more, morePins)
    ensures PinnedUpTo(w, t, i + 1, more, morePins)
  {
    hide Leads;
    forall j, u | 0 <= j < i + 1 && Leads(w, t, t.manifest.dependencies[j], u) ensures Taken(u, more, morePins) {
      if j < i { TakenGrows(u, visited, more, pins, morePins); }
    }
  }

  lemma TakenGrows(u: Target, visited: set<string>, more: set<string>, pins: seq<RegistryPin>,
                   morePins: seq<RegistryPin>)
    requires Taken(u, visited, pins) && visited <= more && pins <= morePins
    ensures Taken(u, more, morePins)
  {
    hide NameKey;
  }

  lemma PinnedGrows(w: World, t: Target, visited: set<string>, more: set<string>, pins: seq<RegistryPin>,
                    morePins: seq<RegistryPin>)
    requires Pinned(w, t, visited, pins) && visited <= more && pins <= morePins
    ensures Pinned(w, t, more, morePins)
  {
    hide Leads, Taken;
    if t.Found? {
      forall i, u | 0 <= i < |t.manifest.dependencies| && Leads(w, t, t.manifest.dependencies[i], u)
        ensures Taken(u, more, morePins)
      {
        TakenGrows(u, visited, more, pins, morePins);
      }
    }
  }

  lemma PinnedFromGrows(w: World, path: seq<Target>, trail: seq<Target>, from: nat,
                        visited: set<string>, more: set<string>,
                        pins: seq<RegistryPin>, morePins: seq<RegistryPin>)
    requires path <= trail && visited <= more && pins <= morePins
    requires PinnedFrom(w, path, from, visited, pins) && PinnedFrom(w, trail, |path|, more, morePins)
    ensures PinnedFrom(w, trail, from, more, morePins)
  {
    hide Pinned;
    forall i | from <= i < |trail| ensures Pinned(w, trail[i], more, morePins) {
      if i < |path| {
        assert path[i] == trail[i];
        PinnedGrows(w, trail[i], visited, more, pins, morePins);
      }
    }
  }

  lemma PinnedWhole(w: World, t: Target, trail: seq<Target>, start: nat, visited: set<string>, pins: seq<RegistryPin>)
    requires t.Found? && PinnedUpTo(w, t, |t.manifest.dependencies|, visited, pins)
    requires 0 < start <= |trail| && trail[start - 1] == t && PinnedFrom(w, trail, start, visited, pins)
    ensures PinnedFrom(w, trail, start - 1, visited, pins)
  {
    hide PinnedUpTo;
  }
}
