/** A lockfile that was just written passes its own check, and covers what is compiled. */
module FreshLock {
  import opened Wrappers
  import opened Order
  import opened Text
  import opened TomlText
  import opened Packages
  import opened Reachability
  import opened LockGraph
  import opened Lockfile
  import opened LockText
  import opened Requirements
  import opened PinWalk
  import opened PinRequirements
  import opened LockCheck
  import LockMigration

  /** Every registry consulted agrees on the content of a name and version. */
  ghost predicate OneHash(w: World, root: Target) {
    forall s, t :: Reaches(w, root, s) && Reaches(w, root, t) && s.Found? && t.Found?
                   && s.source == "registry" && t.source == "registry"
                   && s.manifest.name == t.manifest.name && s.manifest.version == t.manifest.version ==>
      s.hash == t.hash
  }

  /** The pin is the one the check will find: of all hashes under its name and version, its
      own is the greatest. */
  ghost predicate IsGreatest(w: World, root: Target, pin: RegistryPin) {
    forall t :: Reaches(w, root, t) && t.Found? && t.source == "registry" && t.hash.Some?
                && t.manifest.name == pin.name && t.manifest.version == pin.version ==>
      !CompareString(t.hash.value, pin.contentHash).Greater?
  }

  ghost predicate NeedsGreatest(w: World, root: Target) {
    forall pin :: Needed(w, root, pin) ==> IsGreatest(w, root, pin)
  }

  /** No field holds a line break, and what comes from a registry is plain text. */
  ghost predicate PlainGraph(w: World, root: Target) {
    forall t :: Reaches(w, root, t) ==>
      OneLineEntry(Entry(t)) && (Entry(t).source == "registry" ==> PlainEntry(Entry(t)))
  }

  // ---------- sources ----------

  predicate KnownSource(source: string) {
    source == "registry" || (source != "" && source[0] in {'w', 'p', 'g'})
  }

  lemma ReachableHasKnownSource(w: World, m: Manifest, t: Target)
    requires Reaches(w, Workspace(m), t)
    ensures KnownSource(Entry(t).source)
  {
    var known := (u: Target) => KnownSource(Entry(u).source) && (u.Unresolved? ==> u.dependency.source.Registry?);
    forall s, u | Reachable(Edges(w), Workspace(m), s) && known(s) && Edges(w)(s, u) ensures known(u) {
      assert Edge(w, s, u);
      var i :| 0 <= i < |s.manifest.dependencies| && Follow(w, s.manifest, s.manifest.dependencies[i]) == Ok(u);
      FollowHasKnownSource(w, s.manifest, s.manifest.dependencies[i]);
    }
    assert "workspace"[0] == 'w';
    ClosedHoldsReachable(Edges(w), known, Workspace(m), t);
  }

  lemma FollowHasKnownSource(w: World, m: Manifest, d: Dependency)
    ensures Follow(w, m, d).Ok? ==>
              var u := Follow(w, m, d).value;
              KnownSource(Entry(u).source) && (u.Unresolved? ==> u.dependency.source.Registry?)
  {
    hide Labels, KnownSource;
    SourcesAreKnown(d.source);
  }

  lemma SourcesAreKnown(source: DependencySource)
    ensures KnownSource(source.LockSource())
    ensures source.Git? ==> forall head :: KnownSource(source.git.LockSourceWithRev(head))
  {
    match source {
      case Registry =>
      case Path(path) => assert source.LockSource()[0] == 'p';
      case Git(git) =>
        assert git.LockSource()[0] == 'g';
        forall head ensures KnownSource(git.LockSourceWithRev(head)) {
          assert git.LockSourceWithRev(head)[0] == 'g';
        }
    }
  }

  /** What a git checkout is recorded under never reads back: the mark of its revision begins a
      comment. */
  lemma GitSourceIsCut(git: GitDependency, head: string)
    requires OneLine(git.LockSourceWithRev(head))
    ensures ReadValue(git.LockSourceWithRev(head)) != Some(git.LockSourceWithRev(head))
  {
    hide ReadValue;
    var source := git.LockSourceWithRev(head);
    assert source[|"git:" + git.url|] == '#';
    FieldRoundTrip(source);
  }

  /** A printed value that starts with a letter reads back starting with it, or empty. */
  lemma ReadTextKeepsFirst(value: string)
    requires value != "" && IsLower(value[0])
    ensures ReadText(value) == "" || ReadText(value)[0] == value[0]
  {
    hide Find, Trim;
    var q := Quoted(value);
    var mark := ['"', value[0]];
    assert q == "\"" + ([value[0]] + Escape(value[1..])) + "\"";
    assert mark <= q;
    assert TrimStart(q) == q;
    RawMarkIsClean(mark, q);
    CleanIsTrimmed(q);
  }

  lemma CleanIsTrimmed(line: string)
    ensures Trim(Clean(line)) == Clean(line)
  {
    hide Find, Trim;
    var left, right := TrimSplits(Before(line, '#'));
    TrimIdempotent(Clean(line));
  }

  /** Only registry entries read back as registry entries. */
  lemma ReadsAsRegistry(w: World, m: Manifest, t: Target)
    requires Reaches(w, Workspace(m), t) && ReadText(Entry(t).source) == "registry"
    ensures Entry(t).source == "registry"
  {
    hide Entry, Reaches, ReadText;
    ReachableHasKnownSource(w, m, t);
    var source := Entry(t).source;
    assert "registry"[0] == 'r';
    if source != "registry" {
      ReadTextKeepsFirst(source);
    }
  }

  // ---------- the map keeps the last entry ----------

  lemma {:induction false} LastWins(pins: seq<Pin>, i: nat) returns (k: nat)
    requires i < |pins|
    ensures i <= k < |pins| && IdentityOf(pins[k]) == IdentityOf(pins[i])
    ensures forall j :: k < j < |pins| ==> IdentityOf(pins[j]) != IdentityOf(pins[i])
    ensures IdentityOf(pins[i]) in ByIdentity(pins) && ByIdentity(pins)[IdentityOf(pins[i])] == pins[k].contentHash
  {
    var n := |pins| - 1;
    if IdentityOf(pins[n]) == IdentityOf(pins[i]) {
      k := n;
    } else {
      k := LastWins(pins[..n], i);
      forall j | k < j < |pins| ensures IdentityOf(pins[j]) != IdentityOf(pins[i]) {
        if j < n { assert pins[..n][j] == pins[j]; }
      }
    }
  }

  // ---------- pins the graph needs are recorded ----------

  lemma NeededIsReachable(w: World, m: Manifest, pin: RegistryPin) returns (t: Target)
    requires Needed(w, Workspace(m), pin)
    ensures Reaches(w, Workspace(m), t) && Demands(t, pin) && t.source == "registry"
  {
    hide Reachable, Leads;
    var s :| PinReaches(w, Workspace(m), s) && DemandsDirectly(w, s, pin);
    PinReachesReaches(w, Workspace(m), s);
    t :| PinEdge(w, s, t) && Demands(t, pin);
    PinEdgeIsEdge(w, s, t);
    ReachesNext(Edges(w), Workspace(m), s, t);
    ReachableIsWellSourced(w, m, t);
  }

  lemma PinEdgeIsEdge(w: World, s: Target, t: Target)
    requires PinEdge(w, s, t)
    ensures Edge(w, s, t)
  {
    hide Follow;
  }

  lemma PinReachesReaches(w: World, root: Target, t: Target)
    requires PinReaches(w, root, t)
    ensures Reaches(w, root, t)
  {
    hide Reachable, PinEdge, Edge;
    var reached := u => Reaches(w, root, u);
    ReachesItself(Edges(w), root);
    forall s, u | Reachable(PinEdges(w), root, s) && reached(s) && PinEdges(w)(s, u) ensures reached(u) {
      PinEdgeIsEdge(w, s, u);
      ReachesNext(Edges(w), root, s, u);
    }
    ClosedHoldsReachable(PinEdges(w), reached, root, t);
  }

  /** The entries of a plain graph record a needed pin exactly if its hash is the greatest for
      its name and version: an unresolved duplicate without hash sorts in front, and of several
      hashes the map keeps the last. */
  lemma FreshLockRecords(w: World, m: Manifest, es: seq<LockPackage>, pin: RegistryPin)
    requires IsLockOf(w, Workspace(m), es) && PlainGraph(w, Workspace(m)) && Needed(w, Workspace(m), pin)
    ensures Records(Rendered(es), pin) <==> IsGreatest(w, Workspace(m), pin)
  {
    hide *;
    var i, k := KeptEntry(w, m, es, pin);
    if IsGreatest(w, Workspace(m), pin) { GreatestIsKept(w, m, es, pin, i, k); }
    if es[k].contentHash == Some(pin.contentHash) { KeptIsGreatest(w, m, es, pin, k); }
  }

  /** The entry of a pin, and the last one with its identity, which is the one that counts. */
  lemma KeptEntry(w: World, m: Manifest, es: seq<LockPackage>, pin: RegistryPin) returns (i: nat, k: nat)
    requires IsLockOf(w, Workspace(m), es) && PlainGraph(w, Workspace(m)) && Needed(w, Workspace(m), pin)
    ensures 0 < i <= k < |es| && IsPinEntry(es[i], pin) && IsPinEntry(es[k], pin)
    ensures es[i].contentHash == Some(pin.contentHash)
    ensures forall j :: k < j < |es| ==> !IsPinEntry(es[j], pin)
    ensures Records(Rendered(es), pin) <==> es[k].contentHash == Some(pin.contentHash)
  {
    hide Reaches, Rendered, ParsedPackages, ReadText, ReadValue, Needed, StrictlySorted, Plain, OneLine, Entry;
    var t := NeededIsReachable(w, m, pin);
    DemandedEntry(t, pin);
    forall e | e in es ensures OneLineEntry(e) {
      var u :| Reaches(w, Workspace(m), u) && Entry(u) == e;
    }
    PrintedEntriesRead(es);
    var pins := ReadBackAll(es);
    i :| 0 <= i < |es| && es[i] == Entry(t);
    assert es[0].source == "workspace" != "registry" by { WorkspaceEntry(m); }
    PlainReadsBack(es[i]);
    k := LastWins(pins, i);
    var u := RegistryEntry(w, m, es, k, pin);
    forall j | k < j < |es| ensures !IsPinEntry(es[j], pin) {
      assert IdentityOf(pins[j]) != IdentityOf(pins[i]);
      if IsPinEntry(es[j], pin) {
        EntryReadsBack(w, m, es, j);
      }
    }
  }

  /** An entry under the name, version and source of a pin. */
  predicate IsPinEntry(e: LockPackage, pin: RegistryPin) {
    e.name == pin.name && e.version == pin.version && e.source == pin.source == "registry"
  }

  lemma DemandedEntry(t: Target, pin: RegistryPin)
    requires Demands(t, pin) && t.source == "registry"
    ensures IsPinEntry(Entry(t), pin) && Entry(t).contentHash == Some(pin.contentHash)
  {
    hide Labels;
  }

  lemma WorkspaceEntry(m: Manifest)
    ensures Entry(Workspace(m)).source == "workspace"
  {
    hide Labels;
  }

  lemma EntryReadsBack(w: World, m: Manifest, es: seq<LockPackage>, j: int)
    requires IsLockOf(w, Workspace(m), es) && PlainGraph(w, Workspace(m)) && 0 <= j < |es| && es[j].source == "registry"
    ensures ReadBack(es[j]) == AsPin(es[j])
  {
    hide Reaches, ReadText, ReadValue, StrictlySorted, Entry, Plain, OneLine;
    assert es[j] in es;
    var u :| Reaches(w, Workspace(m), u) && Entry(u) == es[j];
    PlainReadsBack(es[j]);
  }

  /** Of two entries for one pin the later has the greater hash. */
  lemma LaterIsGreater(w: World, m: Manifest, es: seq<LockPackage>, pin: RegistryPin, i: nat, k: nat)
    requires IsLockOf(w, Workspace(m), es) && 0 < i < k < |es| && IsPinEntry(es[i], pin) && IsPinEntry(es[k], pin)
    requires es[i].contentHash.Some?
    ensures es[k].contentHash.Some? && CompareString(es[i].contentHash.value, es[k].contentHash.value).Less?
  {
    hide Reaches, Entry, CompareString;
    CompareStringIsTotalOrder();
    assert CompareEntries(es[1..][i - 1], es[1..][k - 1]).Less?;
  }

  lemma GreatestIsKept(w: World, m: Manifest, es: seq<LockPackage>, pin: RegistryPin, i: nat, k: nat)
    requires IsLockOf(w, Workspace(m), es) && IsGreatest(w, Workspace(m), pin)
    requires 0 < i <= k < |es| && IsPinEntry(es[i], pin) && IsPinEntry(es[k], pin)
             && es[i].contentHash == Some(pin.contentHash)
    ensures es[k].contentHash == Some(pin.contentHash)
  {
    hide Reaches, StrictlySorted, CompareString, Labels;
    if i < k {
      LaterIsGreater(w, m, es, pin, i, k);
      assert es[k] in es;
      var u :| Reaches(w, Workspace(m), u) && Entry(u) == es[k];
      CompareStringReverse(u.hash.value, pin.contentHash);
    }
  }

  lemma KeptIsGreatest(w: World, m: Manifest, es: seq<LockPackage>, pin: RegistryPin, k: nat)
    requires IsLockOf(w, Workspace(m), es) && 0 < k < |es| && IsPinEntry(es[k], pin)
    requires es[k].contentHash == Some(pin.contentHash) && forall j :: k < j < |es| ==> !IsPinEntry(es[j], pin)
    ensures IsGreatest(w, Workspace(m), pin)
  {
    hide Reaches, StrictlySorted, CompareString, Labels;
    forall t | Reaches(w, Workspace(m), t) && t.Found? && t.source == "registry" && t.hash.Some?
               && t.manifest.name == pin.name && t.manifest.version == pin.version
      ensures !CompareString(t.hash.value, pin.contentHash).Greater?
    {
      assert Entry(t) in es;
      var j :| 0 <= j < |es| && es[j] == Entry(t);
      assert es[0].source == "workspace" != "registry";
      if j < k {
        LaterIsGreater(w, m, es, pin, j, k);
      } else {
        CompareStringEqual(t.hash.value, pin.contentHash);
      }
    }
  }

  /** Registries that agree on every version need no more. */
  lemma OneHashIsGreatest(w: World, m: Manifest)
    requires OneHash(w, Workspace(m))
    ensures NeedsGreatest(w, Workspace(m))
  {
    hide Reaches, Needed, CompareString;
    forall pin | Needed(w, Workspace(m), pin) ensures IsGreatest(w, Workspace(m), pin) {
      var s := NeededIsReachable(w, m, pin);
      CompareStringEqual(pin.contentHash, pin.contentHash);
    }
  }

  /** An entry that reads back under the pin's identity is a registry entry for it. */
  lemma RegistryEntry(w: World, m: Manifest, es: seq<LockPackage>, k: nat, pin: RegistryPin) returns (u: Target)
    requires IsLockOf(w, Workspace(m), es) && PlainGraph(w, Workspace(m)) && k < |es| && pin.source == "registry"
    requires IdentityOf(ReadBack(es[k])) == (pin.name, pin.version, pin.source)
    ensures Reaches(w, Workspace(m), u) && Entry(u) == es[k] && ReadBack(es[k]) == AsPin(es[k])
    ensures es[k].source == "registry"
  {
    hide Reaches, ReadText, ReadValue, StrictlySorted, Entry, Plain, OneLine;
    assert es[k] in es;
    u :| Reaches(w, Workspace(m), u) && Entry(u) == es[k];
    ReadsAsRegistry(w, m, u);
    PlainReadsBack(es[k]);
  }

  lemma PlainReadsBack(e: LockPackage)
    requires PlainEntry(e) && OneLineEntry(e)
    ensures ReadBack(e) == AsPin(e)
  {
    EntryRoundTrip(e);
  }

  /** Two needed pins that differ in the hash alone cannot both be kept. */
  lemma TwoHashesFail(w: World, m: Manifest, p: RegistryPin, q: RegistryPin)
    requires Needed(w, Workspace(m), p) && Needed(w, Workspace(m), q)
    requires p.name == q.name && p.version == q.version && p.contentHash != q.contentHash
    ensures !NeedsGreatest(w, Workspace(m))
  {
    hide Reaches, Needed, CompareString;
    var s := NeededIsReachable(w, m, p);
    var t := NeededIsReachable(w, m, q);
    CompareStringIsTotalOrder();
    if NeedsGreatest(w, Workspace(m)) {
      assert IsGreatest(w, Workspace(m), p) && IsGreatest(w, Workspace(m), q);
      CompareStringReverse(p.contentHash, q.contentHash);
    }
  }

  // ---------- the same, said of what manifests ask for ----------

  /** No dependency of anything needed gets a greater hash for the same name and version. */
  ghost predicate IsGreatestWanted(w: World, root: Manifest, pin: RegistryPin) {
    forall m, d, other :: IsDeclared(w, root, m, d) && WantsPin(w, m, d, other)
                          && other.name == pin.name && other.version == pin.version ==>
      !CompareString(other.contentHash, pin.contentHash).Greater?
  }

  ghost predicate WantsGreatest(w: World, root: Manifest) {
    forall pin :: IsWanted(w, root, pin) ==> IsGreatestWanted(w, root, pin)
  }

  /** A registry package that is reached has the hash some dependency wants. */
  lemma ReachedIsWanted(w: World, root: Manifest, t: Target) returns (m: Manifest, d: Dependency)
    requires Reaches(w, Workspace(root), t) && t.Found? && t.source == "registry" && t.hash.Some?
    ensures IsDeclared(w, root, m, d)
    ensures WantsPin(w, m, d, RegistryPin(t.manifest.name, t.manifest.version, "registry", t.hash.value))
  {
    hide IsDeclared, Labels, IsEntryOf, Reaches;
    ReachedIsRecorded(w, root, t);
    var e := Entry(t);
    assert e.contentHash.Some? && e.source == "registry";
    m, d :| IsDeclared(w, root, m, d) && (IsEntryFor(w, m, d, e) || IsOpenEntry(w, m, d, e));
    EntryWantsPin(w, m, d, e);
  }

  lemma EntryWantsPin(w: World, m: Manifest, d: Dependency, e: LockPackage)
    requires IsEntryFor(w, m, d, e) || IsOpenEntry(w, m, d, e)
    requires e.source == "registry" && e.contentHash.Some?
    ensures WantsPin(w, m, d, RegistryPin(e.name, e.version, "registry", e.contentHash.value))
  {
    var found :| Satisfies(w, m, d, found) && IsEntryOf(e, found) && IsSourced(w, m, d, e);
    assert e.source[0] == 'r' && forall s: string :: ("path:" + s)[0] == 'p';
  }

  lemma WantedIsReached(w: World, root: Manifest, m: Manifest, d: Dependency, pin: RegistryPin) returns (t: Target)
    requires IsDeclared(w, root, m, d) && WantsPin(w, m, d, pin)
    ensures Reaches(w, Workspace(root), t) && t.Found? && t.source == "registry" && t.hash == Some(pin.contentHash)
    ensures t.manifest.name == pin.name && t.manifest.version == pin.version
  {
    hide Reachable, Needs;
    NeededIsReached(w, root, m);
    var s: Target :| s.Found? && s.manifest == m && Reaches(w, Workspace(root), s);
    t := WantedIsFollowed(w, m, d, pin);
    var i :| 0 <= i < |m.dependencies| && m.dependencies[i] == d;
    assert Edge(w, s, t) by { hide Follow; }
    ReachesNext(Edges(w), Workspace(root), s, t);
  }

  lemma WantedIsFollowed(w: World, m: Manifest, d: Dependency, pin: RegistryPin) returns (t: Target)
    requires WantsPin(w, m, d, pin)
    ensures Follow(w, m, d) == Ok(t) && t.Found? && t.source == "registry" && t.hash == Some(pin.contentHash)
    ensures t.manifest.name == pin.name && t.manifest.version == pin.version
  {
    t := Follow(w, m, d).value;
  }

  lemma GreatestIsGreatestWanted(w: World, root: Manifest, pin: RegistryPin)
    ensures IsGreatest(w, Workspace(root), pin) <==> IsGreatestWanted(w, root, pin)
  {
    hide Reaches, IsDeclared, WantsPin, CompareString;
    if IsGreatest(w, Workspace(root), pin) {
      forall m, d, other | IsDeclared(w, root, m, d) && WantsPin(w, m, d, other)
                           && other.name == pin.name && other.version == pin.version
        ensures !CompareString(other.contentHash, pin.contentHash).Greater?
      {
        var t := WantedIsReached(w, root, m, d, other);
      }
    }
    if IsGreatestWanted(w, root, pin) {
      forall t | Reaches(w, Workspace(root), t) && t.Found? && t.source == "registry" && t.hash.Some?
                 && t.manifest.name == pin.name && t.manifest.version == pin.version
        ensures !CompareString(t.hash.value, pin.contentHash).Greater?
      {
        var m, d := ReachedIsWanted(w, root, t);
      }
    }
  }

  lemma NeedsIsWants(w: World, root: Manifest)
    ensures NeedsGreatest(w, Workspace(root)) <==> WantsGreatest(w, root)
  {
    hide Needed, IsWanted, IsGreatest, IsGreatestWanted;
    forall pin
      ensures Needed(w, Workspace(root), pin) <==> IsWanted(w, root, pin)
      ensures IsGreatest(w, Workspace(root), pin) <==> IsGreatestWanted(w, root, pin)
    {
      NeededIsWanted(w, root, pin);
      GreatestIsGreatestWanted(w, root, pin);
    }
  }

  /** Writing a lockfile and then checking it, over a coherent graph of plain packages.  The pair
      succeeds if everything needed is satisfied and each pin asked for has the greatest hash of
      its name and version, and, where names determine packages, only then. */
  method WriteThenValidate(w: World, manifest: Manifest, ghost keys: set<string>, ghost names: set<string>)
    returns (ok: bool, text: string)
    requires KeysWithin(w, Workspace(manifest), keys) && NamesWithin(w, Workspace(manifest), names)
    requires Coherent(w, Workspace(manifest)) && PlainGraph(w, Workspace(manifest))
    ensures ok ==> AllSatisfied(w, manifest)
    ensures AllSatisfied(w, manifest) && WantsGreatest(w, manifest) ==> ok
    ensures ok && NameCoherent(w, Workspace(manifest)) ==> WantsGreatest(w, manifest)
    ensures OneHash(w, Workspace(manifest)) ==> (ok <==> AllSatisfied(w, manifest))
    ensures ok ==> exists es :: IsLockOf(w, Workspace(manifest), es) && IsAccounted(w, manifest, es)
                                && IsExhaustive(w, manifest, es) && text == Rendered(es)
    ensures ok ==> LockMigration.FindSchema(text).Schema() == Some(LockMigration.CURRENT_SCHEMA)
  {
    NeedsIsWants(w, manifest);
    AllSoundIsSatisfied(w, manifest);
    hide AllSatisfied, WantsGreatest, IsAccounted, IsExhaustive, IsPinWalk, AllWantedRecorded, AllPinSatisfied,
      AllRecorded;
    hide Reachable, Coherent, NameCoherent, OneHash, Sound, Entry, Records, OneLineEntry, Rendered, Needed, IsGreatest,
      LockMigration.FindSchema;
    ghost var root := Workspace(manifest);
    if OneHash(w, root) { OneHashIsGreatest(w, manifest); }
    var entries := ResolveLockEntries(w, manifest, keys);
    if entries.Err? {
      return false, "";
    }
    var es := entries.value;
    text := RenderLockEntries(es);
    forall e | e in es ensures OneLineEntry(e) {
      var t :| Reaches(w, root, t) && Entry(t) == e;
    }
    LockMigration.RenderedIsCurrent(es);
    forall pin | Needed(w, root, pin) ensures Records(text, pin) <==> IsGreatest(w, root, pin) {
      FreshLockRecords(w, manifest, es, pin);
    }
    var check := ValidateRegistryPins(w, manifest, text, names);
    if check.Err? {
      if t :| PinReaches(w, root, t) && !Sound(w, t) {
        PinReachesReaches(w, root, t);
      }
      return false, text;
    }
    ok := true;
  }
}
