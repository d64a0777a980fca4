/** What a package directory is copied to, file by file, said without the definitions that the
    collection uses (`registry.rs`). */
module PackageCopy {
  import opened Names
  import opened FileTree
  import opened RegistryMetadata
  import opened Placement

  /** The entries that are never part of a package, wherever they stand in it. */
  predicate IsLeftBehind(name: string) {
    || name == ".num-package.json" || name == ".git" || name == ".DS_Store" || name == ".num-state"
    || name == "target" || name == "node_modules" || name == "dist"
  }

  /** A path, relative to a package, that belongs to it. */
  predicate IsPackagePath(q: Path) { q != [] && forall name :: name in q ==> !IsLeftBehind(name) }

  /** No file of the package has a backslash in its name. */
  ghost predicate IsPlainPackage(tree: Tree, root: Path) {
    forall q, name :: root + q in tree && IsPackagePath(q) && name in q ==> '\\' !in name
  }

  /** No file of the package lies in `to`. */
  ghost predicate IsApart(tree: Tree, from: Path, to: Path) {
    forall q :: from + q in tree && IsPackagePath(q) ==> !(to <= from + q)
  }

  /** `to` holds the files of the package with their bytes, its metadata, and nothing else. */
  ghost predicate IsCopied(before: Tree, after: Tree, from: Path, to: Path) {
    && to + [".num-package.json"] in after
    && (forall q :: IsPackagePath(q) && from + q in before ==> to + q in after && after[to + q] == before[from + q])
    && (forall p :: p in after && to <= p && p != to + [".num-package.json"] ==>
          IsPackagePath(p[|to|..]) && from + p[|to|..] in before)
  }

  /** The files are listed by their names joined with slashes. */
  ghost predicate IsListing(tree: Tree, root: Path, files: seq<string>) {
    && (forall q :: IsPackagePath(q) && root + q in tree ==> JoinWords(q, '/') in files)
    && (forall file :: file in files ==> exists q :: IsPackagePath(q) && root + q in tree && file == JoinWords(q, '/'))
  }

  lemma PackagePaths(q: Path)
    ensures q != [] && HasNoSkipped(q) <==> IsPackagePath(q)
  {
    hide IsLeftBehind, IsSkipped;
    forall name ensures IsSkipped(name) <==> IsLeftBehind(name) { LeftBehindIsSkipped(name); }
  }

  lemma LeftBehindIsSkipped(name: string)
    ensures IsSkipped(name) <==> IsLeftBehind(name)
  {}

  lemma InPackage(tree: Tree, root: Path, q: Path)
    ensures IsPackagePath(q) && root + q in tree <==> q in Contents(tree, root)
    ensures q in Contents(tree, root) ==> Contents(tree, root)[q] == tree[root + q]
  {
    hide Contents, HasNoSkipped, IsPackagePath;
    PackagePaths(q);
    if IsPackagePath(q) && root + q in tree { InContents(tree, root, q); }
    if q in Contents(tree, root) { ContentsAt(tree, root, q); }
  }

  lemma PlainPackageIsPlain(tree: Tree, root: Path)
    requires WellFormed(tree) && IsPlainPackage(tree, root)
    ensures PlainFiles(tree, root)
  {
    hide Contents, IsPackagePath, WellFormed, RelativePaths;
    ContentsArePlain(tree, root);
    forall q | q in RelativePaths(tree, root) ensures IsPlain(q) {
      assert q in Contents(tree, root);
      InPackage(tree, root, q);
      EntryNamesBelow(tree, root, q);
    }
  }

  lemma EntryNamesBelow(tree: Tree, root: Path, q: Path)
    requires WellFormed(tree) && root + q in tree
    ensures AreEntryNames(q)
  {
    hide AreEntryNames;
    assert (root + q)[|root|..] == q;
    NamesOfTail(root, root + q);
  }

  lemma ApartPackage(tree: Tree, from: Path, to: Path)
    requires IsApart(tree, from, to)
    ensures Apart(from, to, Contents(tree, from))
  {
    hide Contents, IsPackagePath;
    forall q | q in Contents(tree, from) ensures !(to <= from + q) { InPackage(tree, from, q); }
  }

  /** A package that was placed whole is copied. */
  lemma PlacedIsCopied(tree: Tree, from: Path, to: Path, metadata: Bytes)
    requires IsPackage(Contents(tree, from))
    ensures IsCopied(tree, WithPackage(tree, to, Contents(tree, from), metadata), from, to)
  {
    hide Contents, IsPackagePath, Placed, IsPackage, HasNoSkipped;
    var c := Contents(tree, from);
    var after := WithPackage(tree, to, c, metadata);
    forall q | IsPackagePath(q) && from + q in tree ensures to + q in after && after[to + q] == tree[from + q] {
      InPackage(tree, from, q);
      PlacedAt(Without(tree, to), to, c, to + q);
      assert (to + q)[|to|..] == q;
      PackagePaths(q);
      NotTheMetadata(to, q);
    }
    forall p | p in after && to <= p && p != to + [".num-package.json"]
      ensures IsPackagePath(p[|to|..]) && from + p[|to|..] in tree
    {
      PlacedAt(Without(tree, to), to, c, p);
      InPackage(tree, from, p[|to|..]);
    }
  }

  /** The collected texts list the package. */
  lemma CollectedIsListing(tree: Tree, root: Path)
    requires PlainFiles(tree, root)
    ensures IsListing(tree, root, CollectedTexts(tree, root))
  {
    hide IsPackagePath, Contents, RelativePaths, Relative, JoinWords, SortedStrings;
    PlainTexts(tree, root);
    ContentsArePlain(tree, root);
    var files := CollectedTexts(tree, root);
    forall q | IsPackagePath(q) && root + q in tree ensures JoinWords(q, '/') in files {
      InPackage(tree, root, q);
      assert Relative(q) in RelativeTexts(RelativePaths(tree, root));
      PlainRelative(q);
    }
    forall file | file in files ensures exists q :: IsPackagePath(q) && root + q in tree && file == JoinWords(q, '/') {
      var q :| q in RelativePaths(tree, root) && Relative(q) == file;
      InPackage(tree, root, q);
      PlainRelative(q);
    }
  }

  lemma PlainRelative(q: Path)
    requires IsPlain(q)
    ensures Relative(q) == JoinWords(q, '/')
  {
    hide JoinWords;
    JoinedWithoutBackslash(q);
  }

  /** If the package is plain and apart from where it goes, it is copied and listed. */
  ghost predicate CopiesPackage(before: Tree, after: Tree, from: Path, to: Path, files: seq<string>) {
    IsPlainPackage(before, from) && IsApart(before, from, to) ==>
      IsCopied(before, after, from, to) && IsListing(before, from, files)
  }

  lemma PlacingCopies(tree: Tree, from: Path, to: Path, metadata: Bytes)
    requires WellFormed(tree) && PlaceAll(tree, from, to, CollectedTexts(tree, from), metadata).0
    ensures CopiesPackage(tree, PlaceAll(tree, from, to, CollectedTexts(tree, from), metadata).1, from, to,
                          CollectedTexts(tree, from))
  {
    hide WellFormed, Contents, PlaceAll, CollectedTexts, IsPlainPackage, IsApart, IsCopied, IsListing, PlainFiles,
      Apart, WithPackage;
    if IsPlainPackage(tree, from) && IsApart(tree, from, to) {
      PlainPackageIsPlain(tree, from);
      ApartPackage(tree, from, to);
      PlaceIsWithPackage(tree, from, to, metadata);
      ContentsArePackage(tree, from);
      PlacedIsCopied(tree, from, to, metadata);
      CollectedIsListing(tree, from);
    }
  }
}
