/** What a package's content hash covers (`RegistryPackageMetadata::from_package`). */
module PackageDigest {
  import opened Sha256Standard
  import opened Integrity
  import Utf8

  /** A file of a package: its path and what it holds. */
  datatype SourceFile = SourceFile(path: string, bytes: seq<Byte>)

  /** A file as the metadata records it. */
  datatype PackageFile = PackageFile(path: string, size: nat, hash: string)

  function Recorded(file: SourceFile): PackageFile {
    PackageFile(file.path, |file.bytes|, ContentHash(file.bytes))
  }

  function AllRecorded(files: seq<SourceFile>): seq<PackageFile> {
    seq(|files|, i requires 0 <= i < |files| => Recorded(files[i]))
  }

  /** Path, NUL, hash, NUL, file after file. */
  function Stream(files: seq<PackageFile>): seq<Byte> {
    if files == [] then []
    else Stream(files[..|files| - 1]) + Fields(files[|files| - 1])
  }

  function Fields(file: PackageFile): seq<Byte> {
    Utf8.Encode(file.path) + [0] + Utf8.Encode(file.hash) + [0]
  }

  function PackageHash(files: seq<SourceFile>): string {
    ContentHash(Stream(AllRecorded(files)))
  }

  /** The loop over the files feeds one hasher field by field. */
  method FromPackage(files: seq<SourceFile>) returns (entries: seq<PackageFile>, contentHash: string)
    ensures entries == AllRecorded(files)
    ensures contentHash == PackageHash(files)
  {
    hide ContentHash, Fields, Sha256.Valid;
    entries := [];
    var hasher := new ContentHasher();
    for i := 0 to |files|
      invariant hasher.Valid() && fresh(hasher) && fresh(hasher.sha) && fresh(hasher.sha.state)
                && fresh(hasher.sha.buffer)
      invariant entries == AllRecorded(files)[..i]
      invariant hasher.Fed() == Stream(entries)
    {
      var file := files[i];
      var hash := BytesHash(file.bytes);
      var entry := PackageFile(file.path, |file.bytes|, hash);
      Feed(hasher, entry);
      StreamGrows(entries, entry);
      entries := entries + [entry];
    }
    assert AllRecorded(files)[..|files|] == AllRecorded(files);
    contentHash := hasher.Finish();
  }

  method Feed(hasher: ContentHasher, file: PackageFile)
    requires hasher.Valid()
    modifies hasher.sha, hasher.sha.state, hasher.sha.buffer
    ensures hasher.Valid() && hasher.Fed() == old(hasher.Fed()) + Fields(file)
  {
    hide Fields, Sha256.Valid;
    ghost var fed := hasher.Fed();
    hasher.Update(Utf8.Encode(file.path));
    hasher.Update([0]);
    hasher.Update(Utf8.Encode(file.hash));
    hasher.Update([0]);
    FieldsInOrder(fed, file);
  }

  lemma FieldsInOrder(fed: seq<Byte>, file: PackageFile)
    ensures fed + Utf8.Encode(file.path) + [0] + Utf8.Encode(file.hash) + [0] == fed + Fields(file)
  {}

  lemma StreamGrows(files: seq<PackageFile>, file: PackageFile)
    ensures Stream(files + [file]) == Stream(files) + Fields(file)
  {
    assert (files + [file])[..|files|] == files;
  }

  /** What is hashed for a file, in front of the others: its path, a NUL, its hash and a NUL. */
  lemma StreamBegins(file: PackageFile, rest: seq<PackageFile>)
    ensures Stream([file] + rest) == Utf8.Encode(file.path) + [0] + Utf8.Encode(file.hash) + [0] + Stream(rest)
  {
    StreamFromFront([file] + rest);
    assert ([file] + rest)[1..] == rest;
  }

  // ---------- the stream determines the list ----------

  lemma FirstNul(a: seq<Byte>, x: seq<Byte>)
    requires 0 !in a
    ensures var s := a + [0] + x; s[|a|] == 0 && s[..|a|] == a && s[|a| + 1..] == x
    ensures forall k :: 0 <= k < |a| ==> (a + [0] + x)[k] != 0
  {
    forall k | 0 <= k < |a| ensures (a + [0] + x)[k] != 0 {
      assert a[k] in a;
    }
  }

  /** The text before the first NUL is a whole field. */
  lemma FirstField(a: seq<Byte>, x: seq<Byte>, b: seq<Byte>, y: seq<Byte>)
    requires 0 !in a && 0 !in b && a + [0] + x == b + [0] + y
    ensures a == b && x == y
  {
    FirstNul(a, x);
    FirstNul(b, y);
    assert |a| == |b|;
  }

  ghost predicate NulFree(files: seq<PackageFile>) {
    forall f :: f in files ==> '\0' !in f.path && '\0' !in f.hash
  }

  lemma FirstFile(f: PackageFile, x: seq<Byte>, g: PackageFile, y: seq<Byte>)
    requires NulFree([f]) && NulFree([g]) && Fields(f) + x == Fields(g) + y
    ensures f.path == g.path && f.hash == g.hash && x == y
  {
    assert f in [f] && g in [g];
    Utf8.EncodeHasNoNul(f.path);
    Utf8.EncodeHasNoNul(f.hash);
    Utf8.EncodeHasNoNul(g.path);
    Utf8.EncodeHasNoNul(g.hash);
    FieldsThen(f, x);
    FieldsThen(g, y);
    FirstField(Utf8.Encode(f.path), Utf8.Encode(f.hash) + [0] + x, Utf8.Encode(g.path), Utf8.Encode(g.hash) + [0] + y);
    FirstField(Utf8.Encode(f.hash), x, Utf8.Encode(g.hash), y);
    Utf8.EncodeInjective(f.path, g.path);
    Utf8.EncodeInjective(f.hash, g.hash);
  }

  lemma FieldsThen(f: PackageFile, x: seq<Byte>)
    ensures Fields(f) + x == Utf8.Encode(f.path) + [0] + (Utf8.Encode(f.hash) + [0] + x)
  {}

  lemma {:induction false} StreamFromFront(files: seq<PackageFile>)
    requires files != []
    ensures Stream(files) == Fields(files[0]) + Stream(files[1..])
  {
    hide Fields;
    var n := |files| - 1;
    if n == 0 {
      assert files[..0] == [] && files[1..] == [];
    } else {
      StreamFromFront(files[..n]);
      assert files[..n][1..] == files[1..][..n - 1];
      assert files[1..][n - 1] == files[n];
    }
  }

  ghost predicate SamePathsAndHashes(f: seq<PackageFile>, g: seq<PackageFile>) {
    |f| == |g| && forall i :: 0 <= i < |f| ==> f[i].path == g[i].path && f[i].hash == g[i].hash
  }

  lemma {:induction false} SameStream(f: seq<PackageFile>, g: seq<PackageFile>)
    requires SamePathsAndHashes(f, g)
    ensures Stream(f) == Stream(g)
  {
    hide Fields;
    if f != [] {
      var n := |f| - 1;
      SameStream(f[..n], g[..n]);
      SameFields(f[n], g[n]);
    }
  }

  lemma {:induction false} StreamDetermines(f: seq<PackageFile>, g: seq<PackageFile>)
    requires NulFree(f) && NulFree(g) && Stream(f) == Stream(g)
    ensures SamePathsAndHashes(f, g)
  {
    hide Fields;
    if f != [] { StreamFromFront(f); FieldsNotEmpty(f[0]); }
    if g != [] { StreamFromFront(g); FieldsNotEmpty(g[0]); }
    if f != [] && g != [] {
      FirstFile(f[0], Stream(f[1..]), g[0], Stream(g[1..]));
      StreamDetermines(f[1..], g[1..]);
      SameTails(f, g);
    }
  }

  /** Paths and hashes are read off the stream: it determines both lists. */
  lemma StreamIsInjective(f: seq<PackageFile>, g: seq<PackageFile>)
    requires NulFree(f) && NulFree(g)
    ensures Stream(f) == Stream(g) <==> SamePathsAndHashes(f, g)
  {
    if SamePathsAndHashes(f, g) {
      SameStream(f, g);
    } else if Stream(f) == Stream(g) {
      StreamDetermines(f, g);
    }
  }

  lemma FieldsNotEmpty(f: PackageFile)
    ensures Fields(f) != []
  {}

  lemma SameFields(f: PackageFile, g: PackageFile)
    requires f.path == g.path && f.hash == g.hash
    ensures Fields(f) == Fields(g)
  {}

  lemma SameTails(f: seq<PackageFile>, g: seq<PackageFile>)
    requires f != [] && g != [] && f[0].path == g[0].path && f[0].hash == g[0].hash
    requires SamePathsAndHashes(f[1..], g[1..])
    ensures SamePathsAndHashes(f, g)
  {
    forall i | 0 <= i < |f| ensures f[i].path == g[i].path && f[i].hash == g[i].hash {
      if i > 0 { assert f[1..][i - 1] == f[i] && g[1..][i - 1] == g[i]; }
    }
  }

  ghost predicate PathsWithoutNul(files: seq<SourceFile>) {
    forall f :: f in files ==> '\0' !in f.path
  }

  lemma RecordedNulFree(files: seq<SourceFile>)
    requires PathsWithoutNul(files)
    ensures NulFree(AllRecorded(files))
  {
    hide ContentHash;
    forall f | f in AllRecorded(files) ensures '\0' !in f.path && '\0' !in f.hash {
      var i :| 0 <= i < |files| && f == Recorded(files[i]);
      assert files[i] in files;
    }
  }

  lemma FirstDifference(f: seq<SourceFile>, g: seq<SourceFile>) returns (i: nat)
    requires |f| == |g| && f != g
    ensures i < |f| && f[i] != g[i]
  {
    i :| 0 <= i < |f| && f[i] != g[i];
  }

  /** Two messages that were hashed for two packages: their streams, or one file of each at
      the same place of the listing. */
  ghost predicate HashedAlike(f: seq<SourceFile>, g: seq<SourceFile>, x: seq<Byte>, y: seq<Byte>) {
    || (x == Stream(AllRecorded(f)) && y == Stream(AllRecorded(g)))
    || (|f| == |g| && exists i :: 0 <= i < |f| && x == f[i].bytes && y == g[i].bytes)
  }

  /** Two packages with different files and one content hash exhibit a collision of SHA-256
      between two of their files, or between their streams. */
  lemma EqualHashesExhibitCollision(f: seq<SourceFile>, g: seq<SourceFile>) returns (x: seq<Byte>, y: seq<Byte>)
    requires PathsWithoutNul(f) && PathsWithoutNul(g)
    requires f != g && PackageHash(f) == PackageHash(g)
    ensures x != y && Digest(x) == Digest(y) && HashedAlike(f, g, x, y)
  {
    hide Digest, ContentHash, Stream;
    var a, b := AllRecorded(f), AllRecorded(g);
    x, y := Stream(a), Stream(b);
    if x == y {
      RecordedNulFree(f);
      RecordedNulFree(g);
      StreamIsInjective(a, b);
      var i := FirstDifference(f, g);
      assert a[i] == Recorded(f[i]) && b[i] == Recorded(g[i]);
      x, y := f[i].bytes, g[i].bytes;
    }
    ContentHashDeterminesDigest(x, y);
  }

  /** Everything that is hashed for a package: its files, and the stream of their records. */
  ghost function Hashed(files: seq<SourceFile>): set<seq<Byte>> {
    {Stream(AllRecorded(files))} + set f | f in files :: f.bytes
  }

  /** No two different messages of a set share a digest. */
  ghost predicate NoCollision(messages: set<seq<Byte>>) {
    forall x, y :: x in messages && y in messages && Digest(x) == Digest(y) ==> x == y
  }

  /** If what is hashed for two packages does not collide, the content hash tells them apart:
      every difference in a path or in a byte shows. */
  lemma HashDeterminesFiles(f: seq<SourceFile>, g: seq<SourceFile>)
    requires PathsWithoutNul(f) && PathsWithoutNul(g) && NoCollision(Hashed(f) + Hashed(g))
    ensures PackageHash(f) == PackageHash(g) <==> f == g
  {
    hide Digest, ContentHash, Stream;
    if f != g && PackageHash(f) == PackageHash(g) {
      var x, y := EqualHashesExhibitCollision(f, g);
      AlikeIsHashed(f, g, x, y);
    }
  }

  lemma AlikeIsHashed(f: seq<SourceFile>, g: seq<SourceFile>, x: seq<Byte>, y: seq<Byte>)
    requires HashedAlike(f, g, x, y)
    ensures x in Hashed(f) && y in Hashed(g)
  {
    hide Digest, Stream, AllRecorded;
  }
}
