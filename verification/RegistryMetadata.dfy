/** The metadata recorded beside a published package, and what it protects (`registry.rs`). */
module RegistryMetadata {
  import opened Wrappers
  import opened Names
  import opened FileTree
  import opened PackageDigest
  import Sha256Standard

  /** As much of a manifest as the registry looks at. */
  datatype Manifest = Manifest(root: Path, name: string, version: string, language: string, compatibility: string,
                               schema: nat)

  datatype Metadata = Metadata(schema: nat, name: string, version: string, language: string, manifestSchema: nat,
                               files: seq<PackageFile>, contentHash: string)

  /** What the registry asks of the rest of the program: the manifest reader, the
      compatibility check, and the JSON form of the metadata. */
  datatype Host = Host(parse: (Path, Bytes) -> Option<Manifest>, validate: Manifest -> bool,
                       toJson: Metadata -> Bytes, fromJson: Bytes -> Option<Metadata>)
  {
    ghost predicate Faithful() {
      && (forall m :: fromJson(toJson(m)) == Some(m))
      && (forall root, source :: parse(root, source).Some? ==> parse(root, source).value.root == root)
    }
  }

  datatype RegistryError =
    | NotFound | MissingFile | Unreadable | UnsupportedSchema | ManifestMismatch | ContentMismatch
    | Incompatible | AlreadyExists | CannotWrite | NoVersions

  const METADATA_FILE := ".num-package.json"
  const METADATA_SCHEMA: nat := 1

  // ---------- the recorded form of a package ----------

  /** The package's files in listing order. */
  ghost function Listing(c: map<Path, Bytes>): (files: seq<SourceFile>)
    requires PlainKeys(c)
  {
    var texts := SortedStrings(RelativeTexts(c.Keys));
    TextsLeadBack(c);
    seq(|texts|, i requires 0 <= i < |texts| => SourceFile(texts[i], c[Words(texts[i], '/')]))
  }

  ghost predicate PlainKeys(c: map<Path, Bytes>) { forall q :: q in c ==> IsPlain(q) }

  lemma TextsLeadBack(c: map<Path, Bytes>)
    requires PlainKeys(c)
    ensures forall i :: 0 <= i < |SortedStrings(RelativeTexts(c.Keys))| ==>
              var text := SortedStrings(RelativeTexts(c.Keys))[i];
              Words(text, '/') in c && Relative(Words(text, '/')) == text && '\0' !in text
  {
    hide Words, Relative, IsPlain;
    var texts := SortedStrings(RelativeTexts(c.Keys));
    forall i | 0 <= i < |texts|
      ensures Words(texts[i], '/') in c && Relative(Words(texts[i], '/')) == texts[i] && '\0' !in texts[i]
    {
      assert texts[i] in texts;
      var q :| q in c && Relative(q) == texts[i];
      RelativeOfPlain(q);
    }
  }

  /** The metadata of a list of files. */
  function MetadataFrom(manifest: Manifest, files: seq<SourceFile>): Metadata {
    Metadata(METADATA_SCHEMA, manifest.name, manifest.version, manifest.language, manifest.schema,
             AllRecorded(files), PackageHash(files))
  }

  ghost function MetadataOf(manifest: Manifest, c: map<Path, Bytes>): Metadata
    requires PlainKeys(c)
  {
    MetadataFrom(manifest, Listing(c))
  }

  /** What `read` finds under the collected texts, which need not be where a file with a
      backslash in its name is. */
  function ReadAll(tree: Tree, root: Path, texts: seq<string>): Option<seq<SourceFile>> {
    if texts == [] then Some([])
    else
      var front := ReadAll(tree, root, texts[..|texts| - 1]);
      var text := texts[|texts| - 1];
      if front.None? || Resolve(root, text) !in tree then None
      else Some(front.value + [SourceFile(text, tree[Resolve(root, text)])])
  }

  ghost function Sources(tree: Tree, root: Path): Option<seq<SourceFile>> {
    ReadAll(tree, root, CollectedTexts(tree, root))
  }

  /** A package without backslashes in its names is read as it is. */
  lemma PlainSources(tree: Tree, root: Path)
    requires PlainFiles(tree, root)
    ensures PlainKeys(Contents(tree, root)) && Sources(tree, root) == Some(Listing(Contents(tree, root)))
  {
    hide IsPlain, SortedStrings, Words, KeptFiles, CollectedTexts, Relative;
    var c := Contents(tree, root);
    PlainTexts(tree, root);
    assert c.Keys == RelativePaths(tree, root);
    var texts := CollectedTexts(tree, root);
    TextsLeadBack(c);
    PrefixIsRead(tree, root, |texts|);
    assert texts[..|texts|] == texts && Listing(c)[..|texts|] == Listing(c);
  }

  lemma {:induction false} PrefixIsRead(tree: Tree, root: Path, n: nat)
    requires PlainKeys(Contents(tree, root))
    requires n <= |SortedStrings(RelativeTexts(Contents(tree, root).Keys))|
    ensures |Listing(Contents(tree, root))| == |SortedStrings(RelativeTexts(Contents(tree, root).Keys))|
    ensures ReadAll(tree, root, SortedStrings(RelativeTexts(Contents(tree, root).Keys))[..n]) ==
            Some(Listing(Contents(tree, root))[..n])
  {
    hide IsPlain, SortedStrings, Words, KeptFiles, Relative;
    var c := Contents(tree, root);
    var texts := SortedStrings(RelativeTexts(c.Keys));
    if n > 0 {
      PrefixIsRead(tree, root, n - 1);
      TextsLeadBack(c);
      assert texts[..n][..n - 1] == texts[..n - 1];
      assert Listing(c)[..n] == Listing(c)[..n - 1] + [Listing(c)[n - 1]];
    }
  }

  lemma {:induction false} ReadTexts(tree: Tree, root: Path, texts: seq<string>)
    ensures ReadAll(tree, root, texts).Some? ==>
              var files := ReadAll(tree, root, texts).value;
              |files| == |texts| && forall i :: 0 <= i < |texts| ==> files[i].path == texts[i]
  {
    hide Words;
    if texts != [] {
      ReadTexts(tree, root, texts[..|texts| - 1]);
    }
  }

  lemma SourcesWithoutNul(tree: Tree, root: Path)
    requires WellFormed(tree)
    ensures Sources(tree, root).Some? ==> PathsWithoutNul(Sources(tree, root).value)
  {
    hide WellFormed, CollectedTexts, ReadAll;
    TextsHaveNoNul(tree, root);
    ReadTexts(tree, root, CollectedTexts(tree, root));
  }

  /** The listing determines the files. */
  lemma ListingDetermines(c: map<Path, Bytes>, d: map<Path, Bytes>)
    requires PlainKeys(c) && PlainKeys(d) && Listing(c) == Listing(d)
    ensures c == d
  {
    hide Words, Relative, IsPlain, SortedStrings;
    forall q | q in c ensures q in d && c[q] == d[q] { ListedBoth(c, d, q); }
    forall q | q in d ensures q in c { ListedBoth(d, c, q); }
  }

  lemma ListedBoth(c: map<Path, Bytes>, d: map<Path, Bytes>, q: Path)
    requires PlainKeys(c) && PlainKeys(d) && Listing(c) == Listing(d) && q in c
    ensures q in d && c[q] == d[q]
  {
    hide Words, Relative, IsPlain;
    var texts, others := SortedStrings(RelativeTexts(c.Keys)), SortedStrings(RelativeTexts(d.Keys));
    assert Relative(q) in RelativeTexts(c.Keys);
    var i :| 0 <= i < |texts| && texts[i] == Relative(q);
    RelativeOfPlain(q);
    TextsLeadBack(d);
    assert Listing(c)[i] == Listing(d)[i];
    assert others[i] == texts[i];
  }

  /** Equal metadata of different packages exhibits a collision of SHA-256, between the
      streams or between two files at one place of the listings. */
  lemma EqualMetadataExhibitsCollision(m: Manifest, c: map<Path, Bytes>, n: Manifest, d: map<Path, Bytes>)
    returns (x: Bytes, y: Bytes)
    requires PlainKeys(c) && PlainKeys(d) && c != d
    requires MetadataOf(m, c).contentHash == MetadataOf(n, d).contentHash
    ensures x != y && Sha256Standard.Digest(x) == Sha256Standard.Digest(y) && HashedAlike(Listing(c), Listing(d), x, y)
  {
    hide Sha256Standard.Digest, Listing, PackageHash, HashedAlike;
    if Listing(c) == Listing(d) { ListingDetermines(c, d); }
    ListingWithoutNul(c);
    ListingWithoutNul(d);
    x, y := EqualHashesExhibitCollision(Listing(c), Listing(d));
  }

  /** If what is hashed for two packages does not collide, the content hash says whether they
      hold the same files. */
  lemma HashDeterminesContents(m: Manifest, c: map<Path, Bytes>, n: Manifest, d: map<Path, Bytes>)
    requires PlainKeys(c) && PlainKeys(d) && NoCollision(Hashed(Listing(c)) + Hashed(Listing(d)))
    ensures MetadataOf(m, c).contentHash == MetadataOf(n, d).contentHash <==> c == d
  {
    hide Sha256Standard.Digest, Listing, PackageHash, Hashed, NoCollision;
    ListingWithoutNul(c);
    ListingWithoutNul(d);
    HashDeterminesFiles(Listing(c), Listing(d));
    if Listing(c) == Listing(d) { ListingDetermines(c, d); }
  }

  lemma ListingWithoutNul(c: map<Path, Bytes>)
    requires PlainKeys(c)
    ensures PathsWithoutNul(Listing(c))
  {
    TextsLeadBack(c);
  }

  /** Reading the collected files and hashing them yields the metadata of what was read; it
      fails if some text leads to no file. */
  method FromPackage(tree: Tree, manifest: Manifest, files: seq<string>) returns (metadata: Option<Metadata>)
    ensures var read := ReadAll(tree, manifest.root, files);
            metadata == if read.None? then None else Some(MetadataFrom(manifest, read.value))
  {
    hide Words, PackageHash, AllRecorded;
    var sources: seq<SourceFile> := [];
    for i := 0 to |files|
      invariant ReadAll(tree, manifest.root, files[..i]) == Some(sources)
    {
      assert files[..i + 1][..i] == files[..i];
      var path := Resolve(manifest.root, files[i]);
      if path !in tree {
        NothingRead(tree, manifest.root, files, i + 1);
        return None;
      }
      sources := sources + [SourceFile(files[i], tree[path])];
    }
    assert files[..|files|] == files;
    var entries, contentHash := PackageDigest.FromPackage(sources);
    metadata := Some(Metadata(METADATA_SCHEMA, manifest.name, manifest.version, manifest.language, manifest.schema,
                              entries, contentHash));
  }

  lemma {:induction false} NothingRead(tree: Tree, root: Path, texts: seq<string>, n: nat)
    requires n <= |texts| && ReadAll(tree, root, texts[..n]) == None
    ensures ReadAll(tree, root, texts) == None
    decreases |texts|
  {
    hide Words;
    if n == |texts| {
      assert texts[..n] == texts;
    } else {
      var front := texts[..|texts| - 1];
      assert front[..n] == texts[..n];
      NothingRead(tree, root, front, n);
    }
  }

  // ---------- checking recorded metadata ----------

  function MetadataPath(packageRoot: Path): Path { packageRoot + [METADATA_FILE] }

  /** The files can be read, and metadata is absent or says exactly what they say. */
  ghost predicate RecordedMatches(tree: Tree, manifest: Manifest, host: Host) {
    && Sources(tree, manifest.root).Some?
    && (MetadataPath(manifest.root) in tree ==>
          host.fromJson(tree[MetadataPath(manifest.root)]) ==
            Some(MetadataFrom(manifest, Sources(tree, manifest.root).value)))
  }

  /** `validate_registry_metadata`. */
  method ValidateRegistryMetadata(tree: Tree, manifest: Manifest, host: Host)
    returns (r: Result<Metadata, RegistryError>)
    requires WellFormed(tree)
    ensures r.Ok? <==> RecordedMatches(tree, manifest, host)
    ensures r.Ok? ==> r.value == MetadataFrom(manifest, Sources(tree, manifest.root).value)
    ensures r.Err? ==> (r.error == MissingFile <==> Sources(tree, manifest.root).None?)
    ensures r.Err? && r.error != MissingFile ==> MetadataPath(manifest.root) in tree
    ensures r.Err? && r.error != MissingFile ==>
              match host.fromJson(tree[MetadataPath(manifest.root)])
              case None => r.error == Unreadable
              case Some(m) =>
                if m.schema != METADATA_SCHEMA then r.error == UnsupportedSchema
                else r.error == if SameIdentity(m, manifest) then ContentMismatch else ManifestMismatch
  {
    hide WellFormed, ReadAll, PackageHash, AllRecorded;
    var files := CollectPackageFiles(tree, manifest.root);
    var found := FromPackage(tree, manifest, files);
    if found.None? {
      return Err(MissingFile);
    }
    var actual := found.value;
    var path := MetadataPath(manifest.root);
    if path !in tree {
      return Ok(actual);
    }
    var read := host.fromJson(tree[path]);
    if read.None? {
      return Err(Unreadable);
    }
    var recorded := read.value;
    if recorded.schema != METADATA_SCHEMA {
      return Err(UnsupportedSchema);
    }
    if recorded.name != actual.name || recorded.version != actual.version
       || recorded.language != actual.language || recorded.manifestSchema != actual.manifestSchema {
      return Err(ManifestMismatch);
    }
    if recorded.files != actual.files || recorded.contentHash != actual.contentHash {
      return Err(ContentMismatch);
    }
    return Ok(recorded);
  }

  predicate SameIdentity(m: Metadata, manifest: Manifest) {
    m.name == manifest.name && m.version == manifest.version && m.language == manifest.language
    && m.manifestSchema == manifest.schema
  }

  predicate SamePackage(m: Manifest, n: Manifest) {
    m.name == n.name && m.version == n.version && m.language == n.language && m.schema == n.schema
  }

  /** Beside published metadata, the check passes exactly on the published files of the same
      package, provided nothing that is hashed for the two collides. */
  lemma CheckDetectsChanges(tree: Tree, manifest: Manifest, published: Manifest, files: seq<SourceFile>, host: Host)
    requires WellFormed(tree) && host.Faithful() && PathsWithoutNul(files)
    requires MetadataPath(manifest.root) in tree
    requires tree[MetadataPath(manifest.root)] == host.toJson(MetadataFrom(published, files))
    requires Sources(tree, manifest.root).Some? ==>
             NoCollision(Hashed(Sources(tree, manifest.root).value) + Hashed(files))
    ensures RecordedMatches(tree, manifest, host) <==>
            Sources(tree, manifest.root) == Some(files) && SamePackage(manifest, published)
  {
    hide WellFormed, Sources, NoCollision, Hashed, PackageHash, AllRecorded, PathsWithoutNul;
    SourcesWithoutNul(tree, manifest.root);
    if Sources(tree, manifest.root).Some? {
      HashDeterminesFiles(Sources(tree, manifest.root).value, files);
    }
  }
}
