/** Checking a lockfile against the packages it locks (`validate_lockfile_registry_pins`). */
module LockCheck {
  import opened Wrappers
  import opened Packages
  import opened Reachability
  import opened LockGraph
  import opened LockText
  import opened PinWalk
  import opened PinRequirements

  type Identity = (string, string, string)

  function IdentityOf(pin: Pin): Identity { (pin.name, pin.version, pin.source) }

  /** The map built from the parsed packages, where a later entry replaces an earlier one. */
  function ByIdentity(pins: seq<Pin>): map<Identity, Option<string>> {
    if |pins| == 0 then map[]
    else ByIdentity(pins[..|pins| - 1])[IdentityOf(pins[|pins| - 1]) := pins[|pins| - 1].contentHash]
  }

  datatype CheckError =
    | Walk(error: LoadError)
    | MissingEntry(pin: RegistryPin)
    | MissingHash(pin: RegistryPin)
    | HashMismatch(pin: RegistryPin)

  /** The lockfile text records this very pin. */
  predicate Records(source: string, pin: RegistryPin) {
    var ids := ByIdentity(ParsedPackages(source));
    var id := (pin.name, pin.version, pin.source);
    id in ids && ids[id] == Some(pin.contentHash)
  }

  /** `validate_lockfile_registry_pins`: a failure is a needed pin the text does not record,
      or a package that cannot be resolved; success means every needed pin is recorded. */
  method ValidateRegistryPins(w: World, manifest: Manifest, source: string, ghost names: set<string>)
    returns (r: Result<(), CheckError>)
    requires NamesWithin(w, Workspace(manifest), names)
    ensures r.Ok? && NameCoherent(w, Workspace(manifest)) ==>
              forall pin :: Needed(w, Workspace(manifest), pin) ==> Records(source, pin)
    ensures r.Err? ==>
              || (exists pin :: Needed(w, Workspace(manifest), pin) && !Records(source, pin))
              || (exists t :: PinReaches(w, Workspace(manifest), t) && !Sound(w, t))
    ensures r.Ok? ==> exists ms, pins :: IsPinWalk(w, manifest, ms, pins) && AllRecorded(source, pins)
    ensures r.Ok? && NameCoherent(w, Workspace(manifest)) ==> AllWantedRecorded(w, manifest, source)
    ensures r.Err? ==> !AllWantedRecorded(w, manifest, source) || !AllPinSatisfied(w, manifest)
  {
    hide Sound, Needed, Reachable, ParsedPackages, ByIdentity, NameCoherent, IsWanted, IsPinSatisfied, PinFails,
      IsPinWalk;
    WantedIsNeeded(w, manifest);
    ghost var root := Workspace(manifest);
    var parsed := ParseLockfilePackages(source);
    var ids: map<Identity, Option<string>> := map[];
    EmptyByIdentity();
    for i := 0 to |parsed|
      invariant ids == ByIdentity(parsed[..i])
    {
      ByIdentityNext(parsed, i);
      ids := ids[IdentityOf(parsed[i]) := parsed[i].contentHash];
    }
    assert parsed[..|parsed|] == parsed;

    ReachesItself(PinEdges(w), root);
    var collector := new PinCollector();
    var walk := collector.CollectPins(w, Workspace(manifest), root, names);
    if walk.Err? {
      SomethingFails(w, manifest);
      return Err(Walk(walk.error));
    }
    ghost var ms := WalkIsPinWalk(w, manifest, collector.trail, collector.visited, collector.pins);
    var expected := collector.pins;
    for i := 0 to |expected|
      invariant forall j :: 0 <= j < i ==> Records(source, expected[j])
    {
      var pin := expected[i];
      assert pin in expected;
      var id := (pin.name, pin.version, pin.source);
      if id !in ids {
        return Err(MissingEntry(pin));
      }
      if ids[id].None? {
        return Err(MissingHash(pin));
      }
      if ids[id].value != pin.contentHash {
        return Err(HashMismatch(pin));
      }
    }
    if NameCoherent(w, root) {
      PinsAreComplete(w, root, collector.trail, collector.visited, expected);
    }
    r := Ok(());
  }

  predicate AllRecorded(source: string, pins: seq<RegistryPin>) { forall pin :: pin in pins ==> Records(source, pin) }

  /** The text records every pin asked for. */
  ghost predicate AllWantedRecorded(w: World, root: Manifest, source: string) {
    forall pin :: IsWanted(w, root, pin) ==> Records(source, pin)
  }

  ghost predicate AllPinSatisfied(w: World, root: Manifest) {
    forall m :: PinNeeds(w, root, m) ==> IsPinSatisfied(w, m)
  }

  lemma WantedIsNeeded(w: World, m: Manifest)
    ensures forall pin :: Needed(w, Workspace(m), pin) <==> IsWanted(w, m, pin)
  {
    hide Needed, IsWanted;
    forall pin ensures Needed(w, Workspace(m), pin) <==> IsWanted(w, m, pin) { NeededIsWanted(w, m, pin); }
  }

  lemma SomethingFails(w: World, m: Manifest)
    requires exists u :: PinReaches(w, Workspace(m), u) && PinFails(w, u)
    ensures !AllPinSatisfied(w, m) && exists t :: PinReaches(w, Workspace(m), t) && !Sound(w, t)
  {
    hide PinReaches, PinNeeds, IsPinSatisfied;
    var u :| PinReaches(w, Workspace(m), u) && PinFails(w, u);
    PinReachedIsNeeded(w, m, u);
    FollowedIsSatisfied(w, u);
    FailsIsUnsound(w, u);
  }

  lemma FailsIsUnsound(w: World, t: Target)
    requires PinFails(w, t)
    ensures !Sound(w, t)
  {
    hide Follow;
  }

  lemma EmptyByIdentity()
    ensures ByIdentity([]) == map[]
  {}

  lemma ByIdentityNext(pins: seq<Pin>, i: nat)
    requires i < |pins|
    ensures ByIdentity(pins[..i + 1]) == ByIdentity(pins[..i])[IdentityOf(pins[i]) := pins[i].contentHash]
  {
    assert pins[..i + 1][..i] == pins[..i];
  }

  /** The walk takes every needed pin, although it visits one package per name and version. */
  lemma PinsAreComplete(w: World, root: Target, trail: seq<Target>, visited: set<string>, pins: seq<RegistryPin>)
    requires NameCoherent(w, root) && HasKey(NameKey, trail, NameKey(root))
    requires forall i :: 0 <= i < |trail| ==> PinReaches(w, root, trail[i])
    requires forall k :: k in visited ==> HasKey(NameKey, trail, k)
    requires PinnedFrom(w, trail, 0, visited, pins)
    ensures forall pin :: Needed(w, root, pin) ==> pin in pins
  {
    hide NameKey, Reachable, KeyDeterminesSuccessors, Demands, Leads;
    forall i, v | 0 <= i < |trail| && PinEdges(w)(trail[i], v) ensures HasKey(NameKey, trail, NameKey(v)) {
      assert Pinned(w, trail[i], visited, pins) && PinEdge(w, trail[i], v);
      EdgeIsTaken(w, trail[i], v, visited, pins);
    }
    WalkMeetsEveryKey(PinEdges(w), NameKey, root, trail);
    forall pin | Needed(w, root, pin) ensures pin in pins {
      var s :| PinReaches(w, root, s) && DemandsDirectly(w, s, pin);
      assert HasKey(NameKey, trail, NameKey(s));
      var i :| 0 <= i < |trail| && NameKey(trail[i]) == NameKey(s);
      assert DemandsDirectly(w, trail[i], pin);
      var t :| PinEdge(w, trail[i], t) && Demands(t, pin);
      EdgeIsTaken(w, trail[i], t, visited, pins);
    }
  }

  lemma EdgeIsTaken(w: World, s: Target, t: Target, visited: set<string>, pins: seq<RegistryPin>)
    requires Pinned(w, s, visited, pins) && PinEdge(w, s, t)
    ensures Taken(t, visited, pins)
  {
    hide Leads, Taken;
  }
}
