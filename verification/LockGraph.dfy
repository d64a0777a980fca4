/**
 The dependency graph behind a lockfile and the walk that resolves it
 (`resolve_lock_entries` and its helpers in `package.rs`).
 */
module LockGraph {
  import opened Wrappers
  import opened Order
  import opened Packages
  import opened Reachability

  datatype LockPackage = LockPackage(
    name: string, version: string, source: string, contentHash: Option<string>,
    language: Option<string>, compatibility: Option<string>, manifestSchema: Option<nat>,
    dependencies: seq<string>)

  // ---------- the graph ----------

  /** What a dependency leads to: a manifest together with how it was found, or, with no
      registry configured, the bare dependency. */
  datatype Target =
    | Found(manifest: Manifest, source: string, hash: Option<string>)
    | Unresolved(dependency: Dependency)

  function Workspace(m: Manifest): Target { Found(m, "workspace", None) }

  function Follow(w: World, m: Manifest, d: Dependency): Result<Target, LoadError> {
    match d.source
    case Path(path) => (
      match w.loadPath(w.join(m.root, path))
      case None => Err(LoadFailed)
      case Some(found) => Checked(d, Found(found, d.source.LockSource(), None)))
    case Registry => (
      match DiscoverRegistry(w, m)
      case None => Ok(Unresolved(d))
      case Some(registry) =>
        match w.resolveRegistry(registry, d.name, d.version)
        case None => Err(LoadFailed)
        case Some((found, hash)) => Checked(d, Found(found, d.source.LockSource(), Some(hash))))
    case Git(git) => (
      match w.loadGit(m.root, d)
      case None => Err(LoadFailed)
      case Some((found, head)) => Checked(d, Found(found, git.LockSourceWithRev(head), None)))
  }

  function Checked(d: Dependency, t: Target): Result<Target, LoadError>
    requires t.Found?
  {
    if IdentityMatches(d, t.manifest) then Ok(t) else Err(IdentityMismatch)
  }

  /** The visited key: a formatted string, with a trailing blank for a missing hash, and
      without one for an unresolved dependency. */
  function Key(t: Target): string {
    match t
    case Found(m, source, hash) =>
      m.name + "@" + m.version + " " + source + " " + (if hash.Some? then hash.value else "")
    case Unresolved(d) => d.name + "@" + d.version + " " + d.source.LockSource()
  }

  function DependencyLabel(d: Dependency): string {
    d.name + "@" + d.version + " " + d.source.LockSource()
  }

  function Labels(ds: seq<Dependency>): seq<string> {
    SortBy(seq(|ds|, i requires 0 <= i < |ds| => DependencyLabel(ds[i])), CompareString)
  }

  function Entry(t: Target): LockPackage {
    match t
    case Found(m, source, hash) =>
      LockPackage(m.name, m.version, source, hash, Some(m.language), Some(m.compatibility),
                  Some(m.manifestSchema), Labels(m.dependencies))
    case Unresolved(d) =>
      LockPackage(d.name, d.version, d.source.LockSource(), None, None, None, None, [])
  }

  ghost predicate Edge(w: World, s: Target, t: Target) {
    s.Found? && exists i :: 0 <= i < |s.manifest.dependencies| &&
                            Follow(w, s.manifest, s.manifest.dependencies[i]) == Ok(t)
  }

  ghost function Edges(w: World): (Target, Target) -> bool {
    (s, t) => Edge(w, s, t)
  }

  ghost predicate Reaches(w: World, root: Target, t: Target) {
    Reachable(Edges(w), root, t)
  }

  /** Resolving the target's own dependencies cannot fail. */
  ghost predicate Sound(w: World, t: Target) {
    t.Found? ==>
      && w.validate(t.manifest)
      && forall i :: 0 <= i < |t.manifest.dependencies| ==> Follow(w, t.manifest, t.manifest.dependencies[i]).Ok?
  }

  ghost predicate AllSound(w: World, root: Target) {
    forall t :: Reaches(w, root, t) ==> Sound(w, t)
  }

  /** The graph is finite as far as the walk can tell: its keys lie in a finite set. */
  ghost predicate KeysWithin(w: World, root: Target, keys: set<string>) {
    forall t :: Reaches(w, root, t) ==> Key(t) in keys
  }

  /** A key determines what it stands for: the entry, whether it loads, and the keys of its
      dependencies.  The root directory may differ, because the key leaves it out. */
  ghost predicate Coherent(w: World, root: Target) {
    && KeyDeterminesSuccessors(Edges(w), Key, root)
    && forall s, t :: Reaches(w, root, s) && Reaches(w, root, t) && Key(s) == Key(t) ==>
         Entry(s) == Entry(t) && (Sound(w, s) <==> Sound(w, t))
  }

  /** In particular when a key determines the whole manifest. */
  lemma DeterminedKeysAreCoherent(w: World, root: Target)
    requires forall s, t :: Reaches(w, root, s) && Reaches(w, root, t) && Key(s) == Key(t) ==> s == t
    ensures Coherent(w, root)
  {}

  // ---------- the order of the entries ----------

  function CompareOption(x: Option<string>, y: Option<string>): Ordering {
    match (x, y)
    case (None, None) => Equal
    case (None, Some(_)) => Less
    case (Some(_), None) => Greater
    case (Some(a), Some(b)) => CompareString(a, b)
  }

  /** `lock_package_order`. */
  function CompareEntries(x: LockPackage, y: LockPackage): Ordering {
    CompareString(x.name, y.name)
    .Then(CompareString(x.version, y.version))
    .Then(CompareString(x.source, y.source))
    .Then(CompareOption(x.contentHash, y.contentHash))
  }

  predicate SameIdentity(x: LockPackage, y: LockPackage) {
    x.name == y.name && x.version == y.version && x.source == y.source && x.contentHash == y.contentHash
  }

  lemma StringTriple(x: string, y: string, z: string)
    ensures CompareString(x, y) == CompareString(y, x).Reverse()
    ensures CompareString(x, y).Equal? <==> x == y
    ensures !CompareString(x, y).Greater? && !CompareString(y, z).Greater? ==> !CompareString(x, z).Greater?
  {
    CompareStringIsTotalOrder();
  }

  lemma OptionTriple(x: Option<string>, y: Option<string>, z: Option<string>)
    ensures CompareOption(x, y) == CompareOption(y, x).Reverse()
    ensures CompareOption(x, y).Equal? <==> x == y
    ensures !CompareOption(x, y).Greater? && !CompareOption(y, z).Greater? ==> !CompareOption(x, z).Greater?
  {
    CompareStringIsTotalOrder();
  }

  lemma CompareEntriesPair(x: LockPackage, y: LockPackage)
    ensures CompareEntries(x, y) == CompareEntries(y, x).Reverse()
    ensures CompareEntries(x, y).Equal? <==> SameIdentity(x, y)
  {
    hide CompareString, CompareOption;
    StringTriple(x.name, y.name, y.name);
    StringTriple(x.version, y.version, y.version);
    StringTriple(x.source, y.source, y.source);
    OptionTriple(x.contentHash, y.contentHash, y.contentHash);
  }

  lemma CompareEntriesTriple(x: LockPackage, y: LockPackage, z: LockPackage)
    ensures !CompareEntries(x, y).Greater? && !CompareEntries(y, z).Greater? ==> !CompareEntries(x, z).Greater?
  {
    hide CompareString, CompareOption;
    StringTriple(x.name, y.name, z.name);
    StringTriple(y.name, z.name, x.name);
    StringTriple(z.name, x.name, y.name);
    StringTriple(x.version, y.version, z.version);
    StringTriple(y.version, z.version, x.version);
    StringTriple(z.version, x.version, y.version);
    StringTriple(x.source, y.source, z.source);
    StringTriple(y.source, z.source, x.source);
    StringTriple(z.source, x.source, y.source);
    OptionTriple(x.contentHash, y.contentHash, z.contentHash);
    OptionTriple(y.contentHash, z.contentHash, x.contentHash);
    OptionTriple(z.contentHash, x.contentHash, y.contentHash);
  }

  lemma CompareEntriesIsTotalPreorder()
    ensures IsTotalPreorder(CompareEntries)
    ensures forall x, y :: CompareEntries(x, y).Equal? <==> SameIdentity(x, y)
  {
    hide CompareEntries;
    forall x, y ensures CompareEntries(x, y) == CompareEntries(y, x).Reverse() {
      CompareEntriesPair(x, y);
    }
    forall x, y ensures CompareEntries(x, y).Equal? <==> SameIdentity(x, y) {
      CompareEntriesPair(x, y);
    }
    forall x, y, z | !CompareEntries(x, y).Greater? && !CompareEntries(y, z).Greater?
      ensures !CompareEntries(x, z).Greater?
    {
      CompareEntriesTriple(x, y, z);
    }
  }
}
