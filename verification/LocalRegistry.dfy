/** Publishing to, resolving from and installing from a local registry (`registry.rs`). */
module LocalRegistry {
  import opened Wrappers
  import opened Names
  import opened FileTree
  import opened RegistryMetadata
  import opened Placement
  import opened PlainNames
  import opened PackageCopy
  import PackageDigest
  import Versions

  datatype Report = Report(name: string, version: string, packageRoot: Path, files: seq<string>,
                           contentHash: string, dryRun: bool, replaced: bool)

  datatype Resolution = Resolution(manifest: Manifest, contentHash: string)

  /** Where a registry, or an install directory, keeps a version of a package. */
  function PackageRoot(root: Path, name: string, version: string): Path {
    Resolve(Resolve(root, name), version)
  }

  function ManifestPath(packageRoot: Path): Path { packageRoot + ["num.toml"] }

  /** The manifest found in a package directory. */
  function ManifestAt(tree: Tree, packageRoot: Path, host: Host): Option<Manifest> {
    if ManifestPath(packageRoot) in tree then host.parse(packageRoot, tree[ManifestPath(packageRoot)]) else None
  }

  /** A package directory that resolves: a readable manifest, files that can be read, and
      metadata that agrees with them. */
  ghost predicate Resolves(tree: Tree, packageRoot: Path, host: Host) {
    var manifest := ManifestAt(tree, packageRoot, host);
    manifest.Some? && RecordedMatches(tree, manifest.value, host)
  }

  /** The content hash of the files in a directory. */
  ghost function HashAt(tree: Tree, packageRoot: Path): string
    requires Sources(tree, packageRoot).Some?
  {
    PackageDigest.PackageHash(Sources(tree, packageRoot).value)
  }

  function VersionEntry(tree: Tree, packageRoot: Path, version: string): Versions.Entry {
    Versions.Entry(version, ManifestPath(packageRoot + [version]) in tree)
  }

  /** A version directory with a manifest and a parsable name that no other one exceeds. */
  ghost predicate IsLatest(tree: Tree, packageRoot: Path, version: string) {
    && version in Entries(tree, packageRoot) && Versions.Installable(VersionEntry(tree, packageRoot, version))
    && forall v :: v in Entries(tree, packageRoot) && Versions.Installable(VersionEntry(tree, packageRoot, v)) ==>
         !Versions.CompareForSort(v, version).Greater?
  }

  /** The latest version is one, whatever order the directory is read in. */
  lemma LatestIsUnique(tree: Tree, packageRoot: Path, v: string, w: string)
    requires IsLatest(tree, packageRoot, v) && IsLatest(tree, packageRoot, w)
    ensures v == w
  {
    hide Versions.CompareForSort, Versions.Installable;
    Versions.CompareForSortIsTotalOrder();
    assert !Versions.CompareForSort(v, w).Greater? && !Versions.CompareForSort(w, v).Greater?;
  }

  class LocalRegistry {
    const root: Path
    const host: Host

    constructor (root: Path, host: Host)
      ensures this.root == root && this.host == host
    {
      this.root, this.host := root, host;
    }

    /** `latest_version`. */
    method LatestVersion(tree: Tree, name: string) returns (r: Result<string, RegistryError>)
      ensures r.Ok? ==> IsLatest(tree, Resolve(root, name), r.value)
      ensures r.Err? ==> forall v :: v in Entries(tree, Resolve(root, name)) ==>
                !Versions.Installable(VersionEntry(tree, Resolve(root, name), v))
      ensures r == Err(NotFound) <==> !IsDir(tree, Resolve(root, name))
    {
      hide Versions.Installable, Versions.CompareForSort, Versions.Parse;
      var packageRoot := Resolve(root, name);
      if !IsDir(tree, packageRoot) {
        return Err(NotFound);
      }
      var rest := Entries(tree, packageRoot);
      var entries: seq<Versions.Entry> := [];
      while rest != {}
        invariant rest <= Entries(tree, packageRoot)
        invariant forall v :: v in Entries(tree, packageRoot) && v !in rest ==>
                    VersionEntry(tree, packageRoot, v) in entries
        invariant forall e :: e in entries ==>
                    e.name in Entries(tree, packageRoot) && e == VersionEntry(tree, packageRoot, e.name)
      {
        var v :| v in rest;
        rest := rest - {v};
        entries := entries + [VersionEntry(tree, packageRoot, v)];
      }
      var latest := Versions.LatestVersion(entries);
      return if latest.None? then Err(NoVersions) else Ok(latest.value);
    }

    /** `resolve_with_metadata`, for a registry dependency. */
    method ResolveWithMetadata(tree: Tree, name: string, version: string) returns (r: Result<Resolution, RegistryError>)
      requires WellFormed(tree) && host.Faithful()
      ensures r.Ok? <==> Resolves(tree, PackageRoot(root, name, version), host)
      ensures r.Ok? ==> ManifestAt(tree, PackageRoot(root, name, version), host) == Some(r.value.manifest)
                        && r.value.manifest.root == PackageRoot(root, name, version)
                        && Sources(tree, PackageRoot(root, name, version)).Some?
                        && r.value.contentHash == HashAt(tree, PackageRoot(root, name, version))
    {
      hide WellFormed, Words, PackageDigest.PackageHash, PackageDigest.AllRecorded, Sources;
      var packageRoot := PackageRoot(root, name, version);
      if ManifestPath(packageRoot) !in tree {
        return Err(NotFound);
      }
      var manifest := host.parse(packageRoot, tree[ManifestPath(packageRoot)]);
      if manifest.None? {
        return Err(Unreadable);
      }
      var metadata := ValidateRegistryMetadata(tree, manifest.value, host);
      if metadata.Err? {
        return Err(metadata.error);
      }
      return Ok(Resolution(manifest.value, metadata.value.contentHash));
    }

    /** What publishing asks before it writes anything. */
    ghost predicate MayPublish(tree: Tree, manifest: Manifest, replace: bool) {
      && host.validate(manifest) && Sources(tree, manifest.root).Some?
      && (replace || !Exists(tree, PackageRoot(root, manifest.name, manifest.version)))
    }

    /** The tree after publishing, and whether every step of it went through. */
    ghost function Published(tree: Tree, manifest: Manifest): (bool, Tree)
      requires Sources(tree, manifest.root).Some?
    {
      PlaceAll(tree, manifest.root, PackageRoot(root, manifest.name, manifest.version),
               CollectedTexts(tree, manifest.root),
               host.toJson(MetadataFrom(manifest, Sources(tree, manifest.root).value)))
    }

    /** A package with plain names, none of whose files lies in the target, is published whole
        with its metadata, or nothing changes. */
    ghost predicate IsWhole(before: Tree, after: Tree, manifest: Manifest, ok: bool, dryRun: bool, replace: bool) {
      var to, c := PackageRoot(root, manifest.name, manifest.version), Contents(before, manifest.root);
      PlainFiles(before, manifest.root) && Apart(manifest.root, to, c) ==>
        && PlainKeys(c)
        && (ok <==> host.validate(manifest) && (replace || !Exists(before, to)) && (dryRun || IsWritable(before, to)))
        && after == if !ok || dryRun then before else WithPackage(before, to, c, host.toJson(MetadataOf(manifest, c)))
    }

    /** A package none of whose files lies in the target arrives as it was exactly if it may be
        published, no file is in the way, and no name in it has a backslash. */
    ghost predicate ArrivesPlain(before: Tree, after: Tree, manifest: Manifest, ok: bool, replace: bool) {
      var to, c := PackageRoot(root, manifest.name, manifest.version), Contents(before, manifest.root);
      Apart(manifest.root, to, c) ==>
        (ok && Contents(after, to) == c <==>
         MayPublish(before, manifest, replace) && IsWritable(before, to) && PlainFiles(before, manifest.root))
    }

    /** `publish`: its outcome and the tree afterwards; nothing outside the target changes. */
    method Publish(fs: FileSystem, manifest: Manifest, dryRun: bool, replace: bool)
      returns (r: Result<Report, RegistryError>)
      requires WellFormed(fs.tree)
      modifies fs
      ensures var tree := old(fs.tree);
              && (r.Ok? <==> MayPublish(tree, manifest, replace) && (dryRun || Published(tree, manifest).0))
              && fs.tree == if MayPublish(tree, manifest, replace) && !dryRun then Published(tree, manifest).1 else tree
      ensures r.Ok? ==>
                r.value == Report(manifest.name, manifest.version, PackageRoot(root, manifest.name, manifest.version),
                                  CollectedTexts(old(fs.tree), manifest.root),
                                  HashAt(old(fs.tree), manifest.root), dryRun, replace)
      ensures SameBeyond(old(fs.tree), fs.tree, PackageRoot(root, manifest.name, manifest.version))
      ensures IsWhole(old(fs.tree), fs.tree, manifest, r.Ok?, dryRun, replace)
      ensures !dryRun ==> ArrivesPlain(old(fs.tree), fs.tree, manifest, r.Ok?, replace)
      ensures r.Ok? && !dryRun ==>
                CopiesPackage(old(fs.tree), fs.tree, manifest.root, PackageRoot(root, manifest.name, manifest.version),
                              r.value.files)
    {
      hide CopiesPackage, WellFormed, Words, PackageDigest.PackageHash, PackageDigest.AllRecorded, CollectedTexts,
        ReadAll, PlaceAll, Contents, WithPackage, IsWritable, Exists, Apart, PlainFiles, Listing, SameBeyond;
      ghost var tree := fs.tree;
      var to := PackageRoot(root, manifest.name, manifest.version);
      SameAsItself(tree, to);
      if PlainFiles(tree, manifest.root) && Apart(manifest.root, to, Contents(tree, manifest.root)) {
        PlainPublish(this, tree, manifest);
      }
      if Sources(tree, manifest.root).Some? && Apart(manifest.root, to, Contents(tree, manifest.root)) {
        PublishedWhenPlain(this, tree, manifest);
      }
      if !host.validate(manifest) {
        return Err(Incompatible);
      }
      var files := CollectPackageFiles(fs.tree, manifest.root);
      var metadata := RegistryMetadata.FromPackage(fs.tree, manifest, files);
      if metadata.None? {
        return Err(MissingFile);
      }
      if Exists(fs.tree, to) && !replace {
        return Err(AlreadyExists);
      }
      if !dryRun {
        PlaceKeepsOutside(tree, manifest.root, to, files, host.toJson(metadata.value));
        var ok := PlacePackage(fs, manifest.root, to, files, host.toJson(metadata.value));
        if !ok {
          return Err(CannotWrite);
        }
        PlacingCopies(tree, manifest.root, to, host.toJson(metadata.value));
      }
      return Ok(Report(manifest.name, manifest.version, to, files, metadata.value.contentHash, dryRun, replace));
    }

    /** What an installation of a package version asks before it writes anything. */
    ghost predicate MayInstall(tree: Tree, name: string, version: string, installRoot: Path, replace: bool) {
      var from := PackageRoot(root, name, version);
      && Resolves(tree, from, host) && host.validate(ManifestAt(tree, from, host).value)
      && (replace || !Exists(tree, PackageRoot(installRoot, name, version)))
    }

    /** The tree after an installation, and whether every step of it went through. */
    ghost function Installed(tree: Tree, name: string, version: string, installRoot: Path): (bool, Tree)
      requires Resolves(tree, PackageRoot(root, name, version), host) && host.Faithful()
    {
      var from := PackageRoot(root, name, version);
      PlaceAll(tree, from, PackageRoot(installRoot, name, version), CollectedTexts(tree, from),
               host.toJson(MetadataFrom(ManifestAt(tree, from, host).value, Sources(tree, from).value)))
    }

    /** ... with success as the outcome. */
    ghost predicate CanInstall(tree: Tree, name: string, version: string, installRoot: Path, dryRun: bool,
                               replace: bool)
      requires host.Faithful()
    {
      MayInstall(tree, name, version, installRoot, replace) && (dryRun || Installed(tree, name, version, installRoot).0)
    }

    /** The version an installation is about: the one named, or the latest there is. */
    ghost predicate IsVersionFor(tree: Tree, name: string, version: string, found: string) {
      if version == "latest" then IsLatest(tree, Resolve(root, name), found) else found == version
    }

    /** `install`: it succeeds exactly if there is such a version and that one can be
        installed; then the report and the tree are those of that installation. */
    method Install(fs: FileSystem, name: string, version: string, installRoot: Path, dryRun: bool, replace: bool)
      returns (r: Result<Report, RegistryError>)
      requires WellFormed(fs.tree) && host.Faithful()
      modifies fs
      ensures r.Ok? <==> exists v :: IsVersionFor(old(fs.tree), name, version, v)
                                     && CanInstall(old(fs.tree), name, v, installRoot, dryRun, replace)
      ensures r.Ok? ==> IsVersionFor(old(fs.tree), name, version, r.value.version)
                        && IsInstalled(old(fs.tree), fs.tree, name, r.value, installRoot) && r.value.dryRun == dryRun
                        && r.value.name == name && r.value.replaced == replace
      ensures r.Ok? && !dryRun ==>
                CopiesPackage(old(fs.tree), fs.tree, PackageRoot(root, name, r.value.version),
                              PackageRoot(installRoot, name, r.value.version), r.value.files)
      ensures r.Err? ==> fs.tree == old(fs.tree)
                         || exists v :: IsVersionFor(old(fs.tree), name, version, v) && !dryRun
                                        && SameBeyond(old(fs.tree), fs.tree, PackageRoot(installRoot, name, v))
    {
      hide CopiesPackage, WellFormed, Words, PackageDigest.PackageHash, PackageDigest.AllRecorded, CollectedTexts,
        ReadAll, PlaceAll, Exists, IsLatest, SameBeyond;
      ghost var tree := fs.tree;
      var packageVersion := version;
      if version == "latest" {
        var latest := LatestVersion(fs.tree, name);
        if latest.Err? {
          NoLatest(tree, Resolve(root, name));
          return Err(latest.error);
        }
        packageVersion := latest.value;
      }
      OnlyVersion(this, tree, name, version, packageVersion);
      var to := PackageRoot(installRoot, name, packageVersion);
      var resolved := ResolveWithMetadata(fs.tree, name, packageVersion);
      if resolved.Err? {
        return Err(resolved.error);
      }
      var manifest := resolved.value.manifest;
      if !host.validate(manifest) {
        return Err(Incompatible);
      }
      var validated := ValidateRegistryMetadata(fs.tree, manifest, host);
      var metadata := validated.value;  // the same check on the same tree, just passed
      var files := CollectPackageFiles(fs.tree, manifest.root);
      if Exists(fs.tree, to) && !replace {
        return Err(AlreadyExists);
      }
      if !dryRun {
        PlaceKeepsOutside(tree, manifest.root, to, files, host.toJson(metadata));
        var ok := PlacePackage(fs, manifest.root, to, files, host.toJson(metadata));
        if !ok {
          return Err(CannotWrite);
        }
        PlacingCopies(tree, manifest.root, to, host.toJson(metadata));
      }
      return Ok(Report(name, packageVersion, to, files, metadata.contentHash, dryRun, replace));
    }

    /** The tree after a successful installation, and what it reports. */
    ghost predicate IsInstalled(before: Tree, after: Tree, name: string, report: Report, installRoot: Path)
      requires host.Faithful()
    {
      var from := PackageRoot(root, name, report.version);
      && Resolves(before, from, host) && report.contentHash == HashAt(before, from)
      && report.packageRoot == PackageRoot(installRoot, name, report.version)
      && report.files == CollectedTexts(before, from)
      && (report.dryRun ==> after == before)
      && (!report.dryRun ==> Installed(before, name, report.version, installRoot) == (true, after))
    }
  }

  lemma SameAsItself(tree: Tree, dir: Path)
    ensures SameBeyond(tree, tree, dir)
  {}

  lemma NoLatest(tree: Tree, packageRoot: Path)
    requires forall v :: v in Entries(tree, packageRoot) ==> !Versions.Installable(VersionEntry(tree, packageRoot, v))
    ensures forall v :: !IsLatest(tree, packageRoot, v)
  {
    hide Versions.Installable, Versions.CompareForSort;
  }

  lemma OnlyVersion(registry: LocalRegistry, tree: Tree, name: string, version: string, found: string)
    requires registry.IsVersionFor(tree, name, version, found)
    ensures forall v :: registry.IsVersionFor(tree, name, version, v) ==> v == found
  {
    hide IsLatest;
    forall v | registry.IsVersionFor(tree, name, version, v) ensures v == found {
      if version == "latest" { LatestIsUnique(tree, Resolve(registry.root, name), v, found); }
    }
  }

  lemma PlainPublish(registry: LocalRegistry, tree: Tree, manifest: Manifest)
    requires WellFormed(tree) && PlainFiles(tree, manifest.root)
    requires Apart(manifest.root, PackageRoot(registry.root, manifest.name, manifest.version),
                   Contents(tree, manifest.root))
    ensures var to := PackageRoot(registry.root, manifest.name, manifest.version);
            var c := Contents(tree, manifest.root);
            && PlainKeys(c) && Sources(tree, manifest.root) == Some(Listing(c))
            && registry.Published(tree, manifest) ==
               if IsWritable(tree, to)
               then (true, WithPackage(tree, to, c, registry.host.toJson(MetadataOf(manifest, c))))
               else (false, tree)
  {
    hide WellFormed, Words, PackageDigest.PackageHash, PackageDigest.AllRecorded, CollectedTexts, ReadAll, PlaceAll,
      Contents, WithPackage, IsWritable, Apart, PlainFiles, Listing;
    var to := PackageRoot(registry.root, manifest.name, manifest.version);
    PlainSources(tree, manifest.root);
    PlaceIsWithPackage(tree, manifest.root, to,
                       registry.host.toJson(MetadataOf(manifest, Contents(tree, manifest.root))));
  }

  lemma PublishedWhenPlain(registry: LocalRegistry, tree: Tree, manifest: Manifest)
    requires WellFormed(tree) && Sources(tree, manifest.root).Some?
    requires Apart(manifest.root, PackageRoot(registry.root, manifest.name, manifest.version),
                   Contents(tree, manifest.root))
    ensures var to := PackageRoot(registry.root, manifest.name, manifest.version);
            var published := registry.Published(tree, manifest);
            published.0 && Contents(published.1, to) == Contents(tree, manifest.root) <==>
            PlainFiles(tree, manifest.root) && IsWritable(tree, to)
  {
    hide *;
    ArrivesWhenPlain(tree, manifest.root, PackageRoot(registry.root, manifest.name, manifest.version),
                     registry.host.toJson(MetadataFrom(manifest, Sources(tree, manifest.root).value)));
    PublishedIsPlaced(registry, tree, manifest);
  }

  lemma PublishedIsPlaced(registry: LocalRegistry, tree: Tree, manifest: Manifest)
    requires Sources(tree, manifest.root).Some?
    ensures registry.Published(tree, manifest) ==
            PlaceAll(tree, manifest.root, PackageRoot(registry.root, manifest.name, manifest.version),
                     CollectedTexts(tree, manifest.root),
                     registry.host.toJson(MetadataFrom(manifest, Sources(tree, manifest.root).value)))
  {
    hide PlaceAll, CollectedTexts, Sources, MetadataFrom, PackageRoot;
  }

  /** Installed files arrive as they were exactly if no name has a backslash and no file is in
      the way. */
  lemma InstalledWhenPlain(registry: LocalRegistry, tree: Tree, name: string, version: string, installRoot: Path)
    requires WellFormed(tree) && registry.host.Faithful()
    requires Resolves(tree, PackageRoot(registry.root, name, version), registry.host)
    requires Apart(PackageRoot(registry.root, name, version), PackageRoot(installRoot, name, version),
                   Contents(tree, PackageRoot(registry.root, name, version)))
    ensures var from, to := PackageRoot(registry.root, name, version), PackageRoot(installRoot, name, version);
            var installed := registry.Installed(tree, name, version, installRoot);
            installed.0 && Contents(installed.1, to) == Contents(tree, from) <==>
            PlainFiles(tree, from) && IsWritable(tree, to)
  {
    hide WellFormed, Contents, IsWritable, Apart, PlainFiles, CollectedTexts, Words, ReadAll, PlaceAll,
      PackageDigest.PackageHash, PackageDigest.AllRecorded;
    var from, to := PackageRoot(registry.root, name, version), PackageRoot(installRoot, name, version);
    ArrivesWhenPlain(tree, from, to,
                     registry.host.toJson(MetadataFrom(ManifestAt(tree, from, registry.host).value,
                                                       Sources(tree, from).value)));
  }

  /** A registry and an install directory beside each other keep a package apart. */
  lemma RootsAreDisjoint(a: Path, b: Path, name: string, version: string)
    requires Disjoint(a, b)
    ensures Disjoint(PackageRoot(a, name, version), PackageRoot(b, name, version))
  {
    var x := Words(name, '/') + Words(version, '/');
    assert PackageRoot(a, name, version) == a + x && PackageRoot(b, name, version) == b + x;
    if a + x <= b + x {
      PrefixesCompare(a, b, b + x);
    }
    if b + x <= a + x {
      PrefixesCompare(a, b, a + x);
    }
  }

  /** Installing a package with plain names, none of whose files lies in the target: the
      target ends up with exactly the package and its metadata, or nothing changes. */
  lemma InstalledIsWithPackage(registry: LocalRegistry, tree: Tree, name: string, version: string, installRoot: Path)
    requires WellFormed(tree) && registry.host.Faithful()
    requires Resolves(tree, PackageRoot(registry.root, name, version), registry.host)
    requires PlainFiles(tree, PackageRoot(registry.root, name, version))
    requires Apart(PackageRoot(registry.root, name, version), PackageRoot(installRoot, name, version),
                   Contents(tree, PackageRoot(registry.root, name, version)))
    ensures var from, to := PackageRoot(registry.root, name, version), PackageRoot(installRoot, name, version);
            var c := Contents(tree, from);
            && PlainKeys(c)
            && registry.Installed(tree, name, version, installRoot) ==
               if IsWritable(tree, to)
               then (true, WithPackage(tree, to, c,
                                       registry.host.toJson(MetadataOf(ManifestAt(tree, from, registry.host).value,
                                                                       c))))
               else (false, tree)
  {
    hide WellFormed, Contents, WithPackage, IsWritable, Words, RecordedMatches, Apart, PlainFiles, PlainKeys,
      CollectedTexts, ReadAll, PlaceAll, Listing, PackageDigest.PackageHash, PackageDigest.AllRecorded;
    var from, to := PackageRoot(registry.root, name, version), PackageRoot(installRoot, name, version);
    PlainSources(tree, from);
    PlaceIsWithPackage(tree, from, to,
                       registry.host.toJson(MetadataFrom(ManifestAt(tree, from, registry.host).value,
                                                         Sources(tree, from).value)));
  }

  // ---------- the round trip ----------

  /** A package that can be published whole: plain names, no file in the way, and none of its
      own files in the target. */
  ghost predicate CanPublish(registry: LocalRegistry, tree: Tree, manifest: Manifest) {
    var to := PackageRoot(registry.root, manifest.name, manifest.version);
    && WellFormed(tree) && PlainFiles(tree, manifest.root) && AreEntryNames(to) && IsWritable(tree, to)
    && Apart(manifest.root, to, Contents(tree, manifest.root))
  }

  /** The tree after publishing a package. */
  ghost function AfterPublish(registry: LocalRegistry, tree: Tree, manifest: Manifest): Tree
    requires CanPublish(registry, tree, manifest)
  {
    ContentsArePlain(tree, manifest.root);
    var c := Contents(tree, manifest.root);
    WithPackage(tree, PackageRoot(registry.root, manifest.name, manifest.version), c,
                registry.host.toJson(MetadataOf(manifest, c)))
  }

  lemma PlainWhereFound(tree: Tree, root: Path, c: map<Path, Bytes>)
    requires PlainKeys(c) && Contents(tree, root) == c
    ensures PlainFiles(tree, root) && Sources(tree, root) == Some(Listing(c))
  {
    hide Contents, ReadAll, CollectedTexts, Listing, PlainKeys, PlainFiles;
    ContentsArePlain(tree, root);
    PlainSources(tree, root);
  }

  /** Publishing keeps the tree well-formed, and the registry then holds the package's files;
      a package beside the registry still has them too. */
  lemma PublishedTree(registry: LocalRegistry, tree: Tree, manifest: Manifest)
    requires CanPublish(registry, tree, manifest)
    ensures var after := AfterPublish(registry, tree, manifest);
            var to := PackageRoot(registry.root, manifest.name, manifest.version);
            && WellFormed(after) && Contents(after, to) == Contents(tree, manifest.root) && PlainFiles(after, to)
            && (Disjoint(to, manifest.root) ==> Contents(after, manifest.root) == Contents(tree, manifest.root))
  {
    hide WellFormed, Contents, WithPackage, IsPlain, AreEntryNames, IsWritable, MetadataOf, Words, Apart, PlainFiles,
      PlainKeys;
    var to := PackageRoot(registry.root, manifest.name, manifest.version);
    ContentsArePackage(tree, manifest.root);
    var c := Contents(tree, manifest.root);
    ContentsArePlain(tree, manifest.root);
    var metadata := registry.host.toJson(MetadataOf(manifest, c));
    PlacedIsWellFormed(tree, to, c, metadata);
    PlacedIsFound(tree, to, c, metadata);
    PlainWhereFound(AfterPublish(registry, tree, manifest), to, c);
    if Disjoint(to, manifest.root) {
      OutsideIsKept(tree, to, c, metadata, manifest.root);
    }
  }

  lemma SameMetadata(m: Manifest, n: Manifest, files: seq<PackageDigest.SourceFile>)
    ensures MetadataFrom(m, files) == MetadataFrom(n, files) <==> SamePackage(m, n)
  {
    hide PackageDigest.PackageHash, PackageDigest.AllRecorded;
  }

  /** The manifest a package's own file gives when it is read in the registry. */
  ghost function ManifestOf(c: map<Path, Bytes>, packageRoot: Path, host: Host): Option<Manifest> {
    if ["num.toml"] in c then host.parse(packageRoot, c[["num.toml"]]) else None
  }

  lemma FoundManifest(tree: Tree, packageRoot: Path, host: Host)
    ensures ManifestAt(tree, packageRoot, host) == ManifestOf(Contents(tree, packageRoot), packageRoot, host)
  {
    hide Contents, HasNoSkipped;
    var q := ["num.toml"];
    assert HasNoSkipped(q) by { ManifestIsKept(); }
    if packageRoot + q in tree {
      InContents(tree, packageRoot, q);
    }
    if q in Contents(tree, packageRoot) {
      ContentsAt(tree, packageRoot, q);
    }
  }

  lemma ManifestIsKept()
    ensures HasNoSkipped(["num.toml"])
  {}

  /** After publishing, the package resolves exactly when its manifest, read where the
      registry keeps it, still names the same package. A name taken from the directory
      because the manifest has none does not survive the move. */
  lemma PublishedResolves(registry: LocalRegistry, tree: Tree, manifest: Manifest)
    requires CanPublish(registry, tree, manifest) && registry.host.Faithful()
    ensures var after := AfterPublish(registry, tree, manifest);
            var to := PackageRoot(registry.root, manifest.name, manifest.version);
            var read := ManifestOf(Contents(tree, manifest.root), to, registry.host);
            && ManifestAt(after, to, registry.host) == read
            && (Resolves(after, to, registry.host) <==> read.Some? && SamePackage(read.value, manifest))
  {
    hide WellFormed, Contents, WithPackage, IsPlain, AreEntryNames, IsWritable, Words, Apart, PlainFiles, PlainKeys,
      CollectedTexts, ReadAll, Listing, PackageDigest.PackageHash, PackageDigest.AllRecorded, SamePackage;
    PublishedTree(registry, tree, manifest);
    var after := AfterPublish(registry, tree, manifest);
    var to := PackageRoot(registry.root, manifest.name, manifest.version);
    var c := Contents(tree, manifest.root);
    FoundManifest(after, to, registry.host);
    ContentsArePackage(tree, manifest.root);
    PlacedIsFound(tree, to, c, registry.host.toJson(MetadataOf(manifest, c)));
    PlainWhereFound(after, to, c);
    var read := ManifestAt(after, to, registry.host);
    if read.Some? {
      assert read.value.root == to;
      SameMetadata(read.value, manifest, Listing(c));
    }
  }

  /** Publish, then install somewhere else: the installed tree is the package that was
      published, under the same content hash. */
  lemma PublishThenInstall(registry: LocalRegistry, tree: Tree, manifest: Manifest, final: Tree, installRoot: Path,
                           report: Report)
    requires CanPublish(registry, tree, manifest) && registry.host.Faithful()
    requires Apart(PackageRoot(registry.root, manifest.name, manifest.version),
                   PackageRoot(installRoot, manifest.name, manifest.version), Contents(tree, manifest.root))
    requires registry.IsInstalled(AfterPublish(registry, tree, manifest), final, manifest.name, report, installRoot)
    requires report.version == manifest.version && !report.dryRun
    ensures Contents(final, PackageRoot(installRoot, manifest.name, manifest.version)) == Contents(tree, manifest.root)
    ensures Sources(tree, manifest.root).Some? && report.contentHash == HashAt(tree, manifest.root)
  {
    hide WellFormed, Contents, WithPackage, IsPlain, IsWritable, Words, RecordedMatches, Apart, PlainFiles, PlainKeys,
      CollectedTexts, ReadAll, PlaceAll, Listing, AreEntryNames, PackageDigest.PackageHash, PackageDigest.AllRecorded;
    PublishedTree(registry, tree, manifest);
    var after := AfterPublish(registry, tree, manifest);
    var from := PackageRoot(registry.root, manifest.name, manifest.version);
    var to := PackageRoot(installRoot, manifest.name, manifest.version);
    var c := Contents(tree, manifest.root);
    ContentsArePackage(tree, manifest.root);
    PlainWhereFound(tree, manifest.root, c);
    PlainWhereFound(after, from, c);
    var installed := ManifestAt(after, from, registry.host).value;
    var metadata := registry.host.toJson(MetadataFrom(installed, Sources(after, from).value));
    PlaceIsWithPackage(after, from, to, metadata);
    PlacedIsFound(after, to, c, metadata);
  }

  /** Beside published metadata, a package directory resolves exactly if it holds the
      published files of the same package: a file added, removed or changed is refused,
      provided nothing that is hashed for the two collides. */
  lemma InstallDetectsChanges(tree: Tree, packageRoot: Path, published: Manifest, c: map<Path, Bytes>, host: Host)
    requires WellFormed(tree) && host.Faithful() && PlainKeys(c) && PlainFiles(tree, packageRoot)
    requires MetadataPath(packageRoot) in tree
    requires tree[MetadataPath(packageRoot)] == host.toJson(MetadataOf(published, c))
    requires PlainKeys(Contents(tree, packageRoot))
             && PackageDigest.NoCollision(PackageDigest.Hashed(Listing(Contents(tree, packageRoot)))
                                          + PackageDigest.Hashed(Listing(c)))
    ensures var manifest := ManifestAt(tree, packageRoot, host);
            Resolves(tree, packageRoot, host) <==>
            manifest.Some? && SamePackage(manifest.value, published) && Contents(tree, packageRoot) == c
  {
    hide WellFormed, Contents, PlainFiles, PlainKeys, CollectedTexts, ReadAll, Listing, PackageDigest.PackageHash,
      PackageDigest.AllRecorded, PackageDigest.NoCollision, PackageDigest.Hashed, RecordedMatches, SamePackage;
    var manifest := ManifestAt(tree, packageRoot, host);
    PlainSources(tree, packageRoot);
    if manifest.Some? {
      ListingWithoutNul(c);
      CheckDetectsChanges(tree, manifest.value, published, Listing(c), host);
      if Listing(Contents(tree, packageRoot)) == Listing(c) {
        ListingDetermines(Contents(tree, packageRoot), c);
      }
    }
  }

  /** So a package named only by its directory is published but then never resolves, unless
      its name and its version are the same word: the registry's directory is the version. */
  lemma DirectoryNameDoesNotResolve(registry: LocalRegistry, tree: Tree, manifest: Manifest)
    requires CanPublish(registry, tree, manifest) && registry.host.Faithful()
    requires var to := PackageRoot(registry.root, manifest.name, manifest.version);
             var read := ManifestOf(Contents(tree, manifest.root), to, registry.host);
             to != [] && read.Some? && read.value.name == to[|to| - 1]
    requires IsEntryName(manifest.version) && manifest.name != manifest.version
    ensures !Resolves(AfterPublish(registry, tree, manifest),
                      PackageRoot(registry.root, manifest.name, manifest.version), registry.host)
  {
    hide WellFormed, Contents, WithPackage, IsPlain, IsWritable, MetadataOf, Words, Resolves, AfterPublish;
    PublishedResolves(registry, tree, manifest);
    VersionIsLast(registry.root, manifest.name, manifest.version);
  }

  /** Where a package of one name and one version is kept. */
  lemma PackageRootIsNested(root: Path, name: string, version: string)
    requires IsEntryName(name) && IsEntryName(version)
    ensures PackageRoot(root, name, version) == root + [name, version]
    ensures ManifestPath(PackageRoot(root, name, version)) == root + [name, version, "num.toml"]
  {
    WordThenRest(name, "", '/');
    WordThenRest(version, "", '/');
    NoWords('/');
    assert name + "" == name && version + "" == version;
  }

  lemma VersionIsLast(root: Path, name: string, version: string)
    requires IsEntryName(version)
    ensures var to := PackageRoot(root, name, version); to != [] && to[|to| - 1] == version
  {
    WordThenRest(version, "", '/');
    assert version + "" == version;
  }
}
