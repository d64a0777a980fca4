/** Placing a package in a file tree, file by file (`registry.rs`). */
module Placement {
  import opened Names
  import opened Order
  import opened FileTree
  import opened RegistryMetadata

  // ---------- placing a package ----------

  function Without(tree: Tree, dir: Path): Tree { map p | p in tree && !(dir <= p) :: tree[p] }

  ghost function Placed(tree: Tree, dir: Path, c: map<Path, Bytes>): Tree {
    tree + map p | p in (set q | q in c :: dir + q) :: c[p[|dir|..]]
  }

  /** The tree after a package was placed in `dir`, with its metadata beside it. */
  ghost function WithPackage(tree: Tree, dir: Path, c: map<Path, Bytes>, metadata: Bytes): Tree {
    Placed(Without(tree, dir), dir, c)[MetadataPath(dir) := metadata]
  }

  predicate Exists(tree: Tree, p: Path) { exists q :: q in tree && p <= q }

  /** Neither the directory itself nor one above it is a file. */
  predicate IsWritable(tree: Tree, dir: Path) { forall q :: q in tree ==> !(q <= dir) }

  predicate Disjoint(a: Path, b: Path) { !(a <= b) && !(b <= a) }

  lemma ContentsAt(tree: Tree, root: Path, q: Path)
    requires q in Contents(tree, root)
    ensures q != [] && HasNoSkipped(q) && root + q in tree && Contents(tree, root)[q] == tree[root + q]
  {
    hide HasNoSkipped;
    var p :| p in KeptFiles(tree, root) && q == p[|root|..];
  }

  lemma InContents(tree: Tree, root: Path, q: Path)
    requires root + q in tree && q != [] && HasNoSkipped(q)
    ensures q in Contents(tree, root)
  {
    hide HasNoSkipped;
    assert (root + q)[|root|..] == q;
    assert root + q in KeptFiles(tree, root);
    assert q in RelativePaths(tree, root);
  }

  lemma ContentsArePlain(tree: Tree, root: Path)
    ensures PlainKeys(Contents(tree, root)) <==> PlainFiles(tree, root)
    ensures Contents(tree, root).Keys == RelativePaths(tree, root)
  {
    hide IsPlain, RelativePaths;
  }

  /** Files relative to a package: none skipped, no one above another. */
  ghost predicate IsPackage(c: map<Path, Bytes>) {
    && PlainKeys(c)
    && (forall q :: q in c ==> q != [] && HasNoSkipped(q))
    && (forall q, r :: q in c && r in c ==> !IsBelow(q, r))
  }

  lemma ContentsArePackage(tree: Tree, root: Path)
    requires WellFormed(tree) && PlainFiles(tree, root)
    ensures IsPackage(Contents(tree, root))
  {
    hide Contents, HasNoSkipped, IsPlain;
    ContentsArePlain(tree, root);
    var c := Contents(tree, root);
    forall q | q in c ensures q != [] && HasNoSkipped(q) { ContentsAt(tree, root, q); }
    forall q, r | q in c && r in c ensures !IsBelow(q, r) {
      ContentsAt(tree, root, q);
      ContentsAt(tree, root, r);
      PrefixUnder(root, q, r);
    }
  }

  lemma PrefixUnder(root: Path, q: Path, r: Path)
    ensures IsBelow(root + q, root + r) <==> IsBelow(q, r)
  {
    if q <= r {
      assert r == q + r[|q|..];
      assert root + r == (root + q) + r[|q|..];
    }
    if root + q <= root + r {
      assert (root + r)[|root|..] == r && (root + q)[|root|..] == q;
    }
  }

  lemma PlacedAt(tree: Tree, dir: Path, c: map<Path, Bytes>, p: Path)
    ensures dir <= p && p[|dir|..] in c ==> p in Placed(tree, dir, c) && Placed(tree, dir, c)[p] == c[p[|dir|..]]
    ensures !(dir <= p && p[|dir|..] in c) ==> (p in Placed(tree, dir, c) <==> p in tree)
    ensures !(dir <= p && p[|dir|..] in c) && p in tree ==> Placed(tree, dir, c)[p] == tree[p]
  {
    if dir <= p {
      assert dir + p[|dir|..] == p;
      assert forall q :: q in c && p == dir + q ==> q == p[|dir|..];
    }
  }

  /** Publishing is the identity on a package: what was placed is what is found there. */
  lemma PlacedIsFound(tree: Tree, dir: Path, c: map<Path, Bytes>, metadata: Bytes)
    requires IsPackage(c)
    ensures Contents(WithPackage(tree, dir, c, metadata), dir) == c
    ensures MetadataPath(dir) in WithPackage(tree, dir, c, metadata)
    ensures WithPackage(tree, dir, c, metadata)[MetadataPath(dir)] == metadata
  {
    hide Contents, Placed, IsPlain, HasNoSkipped;
    var after := WithPackage(tree, dir, c, metadata);
    var found := Contents(after, dir);
    MetadataIsSkipped();
    forall q | q in found ensures q in c && found[q] == c[q] {
      ContentsAt(after, dir, q);
      PlacedAt(Without(tree, dir), dir, c, dir + q);
      assert (dir + q)[|dir|..] == q;
      NotTheMetadata(dir, q);
    }
    forall q | q in c ensures q in found {
      PlacedAt(Without(tree, dir), dir, c, dir + q);
      assert (dir + q)[|dir|..] == q;
      InContents(after, dir, q);
    }
  }

  lemma MetadataIsSkipped()
    ensures IsSkipped(METADATA_FILE)
  {}

  lemma NotTheMetadata(dir: Path, q: Path)
    requires HasNoSkipped(q)
    ensures dir + q != MetadataPath(dir)
  {
    MetadataIsSkipped();
    SameTail(dir, q, [METADATA_FILE]);
    assert METADATA_FILE in [METADATA_FILE];
  }

  /** Nothing outside the directory changes. */
  lemma OutsideIsKept(tree: Tree, dir: Path, c: map<Path, Bytes>, metadata: Bytes, root: Path)
    requires Disjoint(dir, root)
    ensures Contents(WithPackage(tree, dir, c, metadata), root) == Contents(tree, root)
  {
    hide Contents, Placed, HasNoSkipped;
    var after := WithPackage(tree, dir, c, metadata);
    forall q ensures q in Contents(tree, root) <==> q in Contents(after, root) {
      SameOutside(tree, dir, c, metadata, root, q);
      if q in Contents(tree, root) { ContentsAt(tree, root, q); InContents(after, root, q); }
      if q in Contents(after, root) { ContentsAt(after, root, q); InContents(tree, root, q); }
    }
    forall q | q in Contents(tree, root) ensures Contents(after, root)[q] == Contents(tree, root)[q] {
      SameOutside(tree, dir, c, metadata, root, q);
      ContentsAt(tree, root, q);
      ContentsAt(after, root, q);
    }
  }

  lemma SameOutside(tree: Tree, dir: Path, c: map<Path, Bytes>, metadata: Bytes, root: Path, q: Path)
    requires Disjoint(dir, root)
    ensures var after := WithPackage(tree, dir, c, metadata);
            (root + q in after <==> root + q in tree) && (root + q in tree ==> after[root + q] == tree[root + q])
  {
    hide Placed;
    NotUnder(dir, root, q);
    PlacedAt(Without(tree, dir), dir, c, root + q);
  }

  lemma NotUnder(dir: Path, root: Path, q: Path)
    requires Disjoint(dir, root)
    ensures !(dir <= root + q)
  {
    if dir <= root + q {
      PrefixesCompare(dir, root, root + q);
    }
  }

  lemma PrefixesCompare(a: Path, b: Path, p: Path)
    requires a <= p && b <= p
    ensures a <= b || b <= a
  {
    assert |a| <= |b| ==> a == p[..|a|] == b[..|a|];
    assert |b| <= |a| ==> b == p[..|b|] == a[..|b|];
  }

  /** Placing a package under a writable path keeps the tree well-formed. */
  lemma PlacedIsWellFormed(tree: Tree, dir: Path, c: map<Path, Bytes>, metadata: Bytes)
    requires WellFormed(tree) && IsPackage(c) && AreEntryNames(dir) && IsWritable(tree, dir)
    ensures WellFormed(WithPackage(tree, dir, c, metadata))
  {
    hide Placed, AreEntryNames, IsPackage;
    var after := WithPackage(tree, dir, c, metadata);
    forall p | p in after ensures AreEntryNames(p) { PlacedFrom(tree, dir, c, metadata, p); }
    forall p, q | p in after && q in after ensures !IsBelow(p, q) {
      PlacedFrom(tree, dir, c, metadata, p);
      PlacedFrom(tree, dir, c, metadata, q);
      if IsBelow(p, q) {
        if dir <= p {
          PlacedNotNested(dir, c, p, q);
        } else if dir <= q {
          PrefixesCompare(dir, p, q);
        }
      }
    }
  }

  ghost predicate IsPlaced(dir: Path, c: map<Path, Bytes>, p: Path) {
    dir <= p && (p == MetadataPath(dir) || p[|dir|..] in c)
  }

  lemma PlacedFrom(tree: Tree, dir: Path, c: map<Path, Bytes>, metadata: Bytes, p: Path)
    requires WellFormed(tree) && IsPackage(c) && AreEntryNames(dir) && IsWritable(tree, dir)
    requires p in WithPackage(tree, dir, c, metadata)
    ensures AreEntryNames(p)
    ensures dir <= p ==> IsPlaced(dir, c, p)
    ensures !(dir <= p) ==> p in tree && !(p <= dir)
  {
    hide Placed, IsEntryName, HasNoSkipped;
    PlacedAt(Without(tree, dir), dir, c, p);
    MetadataIsPlain();
    if dir <= p {
      assert p == dir + p[|dir|..];
      if p == MetadataPath(dir) {
      } else {
        assert IsPlain(p[|dir|..]);
      }
    }
  }

  lemma MetadataIsPlain()
    ensures IsPlainName(METADATA_FILE)
  {}

  lemma PlacedNotNested(dir: Path, c: map<Path, Bytes>, p: Path, q: Path)
    requires IsPackage(c) && IsPlaced(dir, c, p) && (dir <= q ==> IsPlaced(dir, c, q))
    ensures !IsBelow(p, q)
  {
    hide IsPlain, IsSkipped;
    MetadataIsSkipped();
    if p <= q {
      var a, b := p[|dir|..], q[|dir|..];
      assert p == dir + a && q == dir + b;
      PrefixUnder(dir, a, b);
      assert a != [] && b != [];
      if p == MetadataPath(dir) {
        assert a == [METADATA_FILE];
        if a <= b { assert b[0] == METADATA_FILE; }
      } else if q == MetadataPath(dir) {
        assert b == [METADATA_FILE];
      }
    }
  }

  // ---------- the file system ----------

  predicate CanPlace(tree: Tree, p: Path) { forall q :: q in tree ==> !IsBelow(q, p) && !IsBelow(p, q) }

  class FileSystem {
    var tree: Tree

    constructor (tree: Tree)
      ensures this.tree == tree
    {
      this.tree := tree;
    }

    /** `remove_dir_all`. */
    method RemoveDirAll(dir: Path)
      modifies this
      ensures tree == Without(old(tree), dir)
    {
      tree := Without(tree, dir);
    }

    /** Creating the parent directories and writing the file; a file in the place of a
        directory, or a directory in the place of the file, stops it. */
    method Write(p: Path, bytes: Bytes) returns (ok: bool)
      modifies this
      ensures ok <==> CanPlace(old(tree), p)
      ensures tree == if ok then old(tree)[p := bytes] else old(tree)
    {
      ok := CanPlace(tree, p);
      if ok {
        tree := tree[p := bytes];
      }
    }
  }

  /** The files of a package that are among the first of the listing. */
  ghost function Among(c: map<Path, Bytes>, texts: seq<string>): map<Path, Bytes> {
    map q | q in c && Relative(q) in texts :: c[q]
  }

  lemma AmongNone(tree: Tree, dir: Path, c: map<Path, Bytes>)
    ensures Placed(tree, dir, Among(c, [])) == tree
  {}

  lemma AmongAll(c: map<Path, Bytes>, texts: seq<string>)
    requires forall q :: q in c ==> Relative(q) in texts
    ensures Among(c, texts) == c
  {}

  lemma AmongMore(tree: Tree, dir: Path, c: map<Path, Bytes>, texts: seq<string>, q: Path)
    requires IsPackage(c) && q in c && Relative(q) !in texts
    ensures Placed(tree, dir, Among(c, texts + [Relative(q)])) == Placed(tree, dir, Among(c, texts))[dir + q := c[q]]
  {
    hide Relative, IsPlain, Placed;
    var less, more := Among(c, texts), Among(c, texts + [Relative(q)]);
    assert more.Keys == less.Keys + {q} by {
      forall r | r in c && Relative(r) == Relative(q) ensures r == q {
        RelativeOfPlain(r);
        RelativeOfPlain(q);
      }
    }
    PlacedOneMore(tree, dir, less, more, q);
  }

  lemma PlacedOneMore(tree: Tree, dir: Path, less: map<Path, Bytes>, more: map<Path, Bytes>, q: Path)
    requires q !in less && q in more && more.Keys == less.Keys + {q} && forall r :: r in less ==> less[r] == more[r]
    ensures Placed(tree, dir, more) == Placed(tree, dir, less)[dir + q := more[q]]
  {
    hide Placed;
    var a, b := Placed(tree, dir, more), Placed(tree, dir, less)[dir + q := more[q]];
    assert (dir + q)[|dir|..] == q;
    forall p ensures (p in a <==> p in b) && (p in a ==> a[p] == b[p]) {
      PlacedAt(tree, dir, less, p);
      PlacedAt(tree, dir, more, p);
      assert dir <= p ==> p == dir + p[|dir|..];
    }
  }

  // ---------- copying a package ----------

  /** The copying loop: one file after the other, until one cannot be read or written. */
  function CopyAll(tree: Tree, from: Path, to: Path, texts: seq<string>): (bool, Tree) {
    if texts == [] then (true, tree)
    else
      var before := CopyAll(tree, from, to, texts[..|texts| - 1]);
      var source, target := Resolve(from, texts[|texts| - 1]), Resolve(to, texts[|texts| - 1]);
      if !before.0 then before
      else if source !in before.1 || !CanPlace(before.1, target) then (false, before.1)
      else (true, before.1[target := before.1[source]])
  }

  /** What `publish` and `install` share: an existing directory goes, the files come, and the
      metadata last. */
  function PlaceAll(tree: Tree, from: Path, to: Path, texts: seq<string>, metadata: Bytes): (bool, Tree) {
    if to in tree then (false, tree)
    else
      var copied := CopyAll(if Exists(tree, to) then Without(tree, to) else tree, from, to, texts);
      if !copied.0 || !CanPlace(copied.1, MetadataPath(to)) then (false, copied.1)
      else (true, copied.1[MetadataPath(to) := metadata])
  }

  method CopyFiles(fs: FileSystem, from: Path, to: Path, files: seq<string>) returns (ok: bool)
    modifies fs
    ensures (ok, fs.tree) == CopyAll(old(fs.tree), from, to, files)
  {
    hide CanPlace, Words;
    for i := 0 to |files|
      invariant CopyAll(old(fs.tree), from, to, files[..i]) == (true, fs.tree)
    {
      assert files[..i + 1][..i] == files[..i];
      var source := Resolve(from, files[i]);
      if source !in fs.tree {
        CopyStopped(old(fs.tree), from, to, files, i + 1);
        return false;
      }
      ok := fs.Write(Resolve(to, files[i]), fs.tree[source]);
      if !ok {
        CopyStopped(old(fs.tree), from, to, files, i + 1);
        return;
      }
    }
    assert files[..|files|] == files;
    ok := true;
  }

  lemma {:induction false} CopyStopped(tree: Tree, from: Path, to: Path, texts: seq<string>, n: nat)
    requires n <= |texts| && !CopyAll(tree, from, to, texts[..n]).0
    ensures CopyAll(tree, from, to, texts) == CopyAll(tree, from, to, texts[..n])
    decreases |texts|
  {
    hide CanPlace, Words;
    if n == |texts| {
      assert texts[..n] == texts;
    } else {
      var front := texts[..|texts| - 1];
      assert front[..n] == texts[..n];
      CopyStopped(tree, from, to, front, n);
    }
  }

  method PlacePackage(fs: FileSystem, from: Path, to: Path, files: seq<string>, metadata: Bytes) returns (ok: bool)
    modifies fs
    ensures (ok, fs.tree) == PlaceAll(old(fs.tree), from, to, files, metadata)
  {
    hide CanPlace, CopyAll, Without;
    if Exists(fs.tree, to) {
      if to in fs.tree {
        return false;
      }
      fs.RemoveDirAll(to);
    }
    ok := CopyFiles(fs, from, to, files);
    if !ok {
      return;
    }
    ok := fs.Write(MetadataPath(to), metadata);
  }

  // ---------- nothing outside changes ----------

  ghost predicate SameBeyond(a: Tree, b: Tree, dir: Path) {
    forall p :: !(dir <= p) ==> (p in a <==> p in b) && (p in a ==> a[p] == b[p])
  }

  lemma {:induction false} CopyKeepsOutside(tree: Tree, from: Path, to: Path, texts: seq<string>)
    ensures SameBeyond(tree, CopyAll(tree, from, to, texts).1, to)
  {
    hide CanPlace, Words;
    if texts != [] {
      CopyKeepsOutside(tree, from, to, texts[..|texts| - 1]);
    }
  }

  /** Whatever happens, nothing outside the directory changes. */
  lemma PlaceKeepsOutside(tree: Tree, from: Path, to: Path, texts: seq<string>, metadata: Bytes)
    ensures SameBeyond(tree, PlaceAll(tree, from, to, texts, metadata).1, to)
  {
    hide CanPlace, CopyAll;
    CopyKeepsOutside(if Exists(tree, to) then Without(tree, to) else tree, from, to, texts);
  }

  // ---------- a package away from its target ----------

  /** No file of the package lies in the directory it is copied to. */
  ghost predicate Apart(from: Path, to: Path, c: map<Path, Bytes>) { forall q :: q in c ==> !(to <= from + q) }

  /** In particular when the directories are disjoint, or the target is new. */
  lemma WhenApart(tree: Tree, from: Path, to: Path)
    ensures Disjoint(from, to) || !Exists(tree, to) ==> Apart(from, to, Contents(tree, from))
  {
    hide Contents;
    forall q | q in Contents(tree, from) && (Disjoint(from, to) || !Exists(tree, to)) ensures !(to <= from + q) {
      ContentsAt(tree, from, q);
      if Disjoint(from, to) { NotUnder(to, from, q); }
    }
  }

  /** The next file of the package can be copied, and copying reads what the package had. */
  lemma CopyStep(base: Tree, from: Path, to: Path, c: map<Path, Bytes>, less: map<Path, Bytes>, q: Path)
    requires WellFormed(base) && Apart(from, to, c) && !Exists(base, to) && IsPackage(c)
    requires c == Contents(base, from) && less.Keys <= c.Keys && q in c && q !in less
    ensures from + q in Placed(base, to, less) && Placed(base, to, less)[from + q] == c[q]
    ensures CanPlace(Placed(base, to, less), to + q) <==> IsWritable(base, to)
  {
    hide Placed, Contents, IsPlain, AreEntryNames, HasNoSkipped;
    var tree := Placed(base, to, less);
    PlacedAt(base, to, less, from + q);
    ContentsAt(base, from, q);
    if IsWritable(base, to) {
      forall p | p in tree ensures !IsBelow(p, to + q) && !IsBelow(to + q, p) {
        PlacedAt(base, to, less, p);
        if to <= p {
          assert p == to + p[|to|..];
          PrefixUnder(to, p[|to|..], q);
          PrefixUnder(to, q, p[|to|..]);
        } else if IsBelow(p, to + q) {
          PrefixesCompare(p, to, to + q);
        }
      }
    } else {
      var p :| p in base && p <= to;
      PlacedAt(base, to, less, p);
      assert p != to;
    }
  }

  lemma MetadataStep(base: Tree, to: Path, c: map<Path, Bytes>)
    requires !Exists(base, to) && IsPackage(c)
    ensures CanPlace(Placed(base, to, c), MetadataPath(to)) <==> IsWritable(base, to)
  {
    hide Placed, IsPlain, IsSkipped;
    var tree, q := Placed(base, to, c), [METADATA_FILE];
    MetadataIsSkipped();
    if IsWritable(base, to) {
      forall p | p in tree ensures !IsBelow(p, to + q) && !IsBelow(to + q, p) {
        PlacedAt(base, to, c, p);
        if to <= p {
          var a := p[|to|..];
          assert p == to + a && a != [];
          PrefixUnder(to, a, q);
          PrefixUnder(to, q, a);
        } else if IsBelow(p, to + q) {
          PrefixesCompare(p, to, to + q);
        }
      }
    } else {
      var p :| p in base && p <= to;
      PlacedAt(base, to, c, p);
      assert p != to;
    }
  }

  /** The first `n` files are in place, or none if a file is in the way. */
  lemma {:induction false} CopyIsPlaced(base: Tree, from: Path, to: Path, c: map<Path, Bytes>, texts: seq<string>,
                                        n: nat)
    requires WellFormed(base) && Apart(from, to, c) && !Exists(base, to) && IsPackage(c)
    requires c == Contents(base, from) && texts == SortedStrings(RelativeTexts(c.Keys)) && n <= |texts|
    ensures CopyAll(base, from, to, texts[..n]) ==
            if n == 0 || IsWritable(base, to) then (true, Placed(base, to, Among(c, texts[..n]))) else (false, base)
  {
    hide WellFormed, Contents, Placed, Among, Words, Relative, IsPackage, IsWritable, Exists, CanPlace, SortedStrings,
      Apart;
    if n == 0 {
      AmongNone(base, to, c);
      assert texts[..0] == [];
    } else {
      var q := Words(texts[n - 1], '/');
      var less := Among(c, texts[..n - 1]);
      CopyIsPlaced(base, from, to, c, texts, n - 1);
      NextFile(c, texts, n - 1);
      CopyStep(base, from, to, c, less, q);
      AmongMore(base, to, c, texts[..n - 1], q);
      assert texts[..n] == texts[..n - 1] + [texts[n - 1]] && texts[..n][..n - 1] == texts[..n - 1];
      if n == 1 {
        AmongNone(base, to, c);
        assert texts[..0] == [];
      }
    }
  }

  lemma FilesOf(c: map<Path, Bytes>, files: seq<string>)
    requires IsPackage(c) && files == SortedStrings(RelativeTexts(c.Keys))
    ensures files == [] <==> c == map[]
    ensures forall q :: q in c ==> Relative(q) in files
  {
    hide Relative, IsPlain;
    forall q | q in c ensures Relative(q) in files {
      assert Relative(q) in RelativeTexts(c.Keys);
    }
    if files != [] {
      assert files[0] in RelativeTexts(c.Keys);
    }
  }

  lemma NextFile(c: map<Path, Bytes>, files: seq<string>, i: nat)
    requires IsPackage(c) && files == SortedStrings(RelativeTexts(c.Keys)) && i < |files|
    ensures var q := Words(files[i], '/');
            q in c && Relative(q) == files[i] && files[i] !in files[..i] && q !in Among(c, files[..i])
    ensures Among(c, files[..i]).Keys <= c.Keys
  {
    hide Relative, IsPlain, Words;
    TextsLeadBack(c);
    CompareStringIsTotalOrder();
    assert CompareString(files[i], files[i]).Equal?;
    forall j | 0 <= j < i ensures files[j] != files[i] {
      assert CompareString(files[j], files[i]).Less?;
    }
  }

  /** Removing a directory that holds no file of a package leaves the package. */
  lemma RemovedElsewhere(tree: Tree, dir: Path, root: Path)
    requires Apart(root, dir, Contents(tree, root))
    ensures Contents(Without(tree, dir), root) == Contents(tree, root)
  {
    hide Contents, HasNoSkipped;
    var after := Without(tree, dir);
    forall q ensures q in Contents(tree, root) <==> q in Contents(after, root) {
      if q in Contents(tree, root) { ContentsAt(tree, root, q); InContents(after, root, q); }
      if q in Contents(after, root) { ContentsAt(after, root, q); InContents(tree, root, q); }
    }
    forall q | q in Contents(tree, root) ensures Contents(after, root)[q] == Contents(tree, root)[q] {
      ContentsAt(tree, root, q);
      ContentsAt(after, root, q);
    }
  }

  lemma NoneAbove(tree: Tree, dir: Path, p: Path, q: Path)
    requires WellFormed(tree) && p in tree && q in tree && p <= dir && dir <= q
    ensures p == dir
  {
    hide AreEntryNames;
    assert p == dir[..|p|] == q[..|p|];
    assert !IsBelow(p, q);
  }

  lemma NothingToRemove(tree: Tree, dir: Path)
    ensures !Exists(Without(tree, dir), dir)
    ensures !Exists(tree, dir) ==> Without(tree, dir) == tree
    ensures WellFormed(tree) ==> WellFormed(Without(tree, dir))
    ensures dir !in tree ==> IsWritable(Without(tree, dir), dir) == IsWritable(tree, dir)
    ensures WellFormed(tree) && !IsWritable(tree, dir) && dir !in tree ==> !Exists(tree, dir)
  {
    hide AreEntryNames;
    if WellFormed(tree) && !IsWritable(tree, dir) && dir !in tree && Exists(tree, dir) {
      var p :| p in tree && p <= dir;
      var q :| q in tree && dir <= q;
      NoneAbove(tree, dir, p, q);
    }
    if dir !in tree && !IsWritable(tree, dir) {
      var p :| p in tree && p <= dir;
      assert dir <= p ==> p == dir;
      assert p in Without(tree, dir);
    }
  }

  /** A package none of whose files lies in the target is placed whole, or nothing changes:
      the latter exactly if a file is in the place of the target or of a directory above. */
  lemma PlaceIsWithPackage(tree: Tree, from: Path, to: Path, metadata: Bytes)
    requires WellFormed(tree) && PlainFiles(tree, from) && Apart(from, to, Contents(tree, from))
    ensures PlaceAll(tree, from, to, CollectedTexts(tree, from), metadata) ==
            if IsWritable(tree, to) then (true, WithPackage(tree, to, Contents(tree, from), metadata))
            else (false, tree)
  {
    hide WellFormed, Contents, Placed, Among, Relative, IsPackage, CanPlace, SortedStrings, CollectedTexts, PlainFiles,
      Apart, CopyAll;
    var c, base, texts := Contents(tree, from), Without(tree, to), CollectedTexts(tree, from);
    if to !in tree {
      ContentsArePackage(tree, from);
      ContentsArePlain(tree, from);
      PlainTexts(tree, from);
      NothingToRemove(tree, to);
      RemovedElsewhere(tree, to, from);
      FilesOf(c, texts);
      AmongAll(c, texts);
      CopyIsPlaced(base, from, to, c, texts, |texts|);
      assert texts[..|texts|] == texts;
      MetadataStep(base, to, c);
      EmptyPlaced(base, to);
    }
  }

  lemma EmptyPlaced(tree: Tree, dir: Path)
    ensures Placed(tree, dir, map[]) == tree
  {}
}
