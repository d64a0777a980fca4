/**
 A file tree and what a package directory holds: the collection of package files,
 with its skipped entries, and the text form of their paths (`registry.rs`).
 */
module FileTree {
  import Sha256Standard
  import opened Names
  import opened Order

  type Path = seq<string>
  type Bytes = seq<Sha256Standard.Byte>

  /** The files of a file system, by the names on the way to them. */
  type Tree = map<Path, Bytes>

  // ---------- names and paths ----------

  /** A name the operating system allows for a directory entry. */
  predicate IsEntryName(name: string) { name != "" && '/' !in name && '\0' !in name }

  predicate AreEntryNames(path: Path) { forall name :: name in path ==> IsEntryName(name) }

  /** A name that survives the way through the text form of a path. */
  predicate IsPlainName(name: string) { IsEntryName(name) && '\\' !in name }

  predicate IsPlain(path: Path) { forall name :: name in path ==> IsPlainName(name) }

  function Slashed(s: string): (r: string)
    ensures |r| == |s| && '\\' !in r
    ensures '\\' !in s ==> r == s
  {
    seq(|s|, i requires 0 <= i < |s| => if s[i] == '\\' then '/' else s[i])
  }

  /** `to_string_lossy().replace('\\', "/")` on a relative path. */
  function Relative(path: Path): string { Slashed(JoinWords(path, '/')) }

  /** `join`: the path a relative text leads to. */
  function Resolve(root: Path, relative: string): Path { root + Words(relative, '/') }

  ghost const NO_BACKSLASH: set<char> := set c: char | c != '\\'
  ghost const ANY: set<char> := set c: char | c == c

  lemma EntryNamesAreWords(path: Path)
    requires AreEntryNames(path)
    ensures AreWords(path, '/', ANY)
  {
    forall name | name in path ensures IsWord(name, '/', ANY) {}
  }

  lemma WordsWithoutBackslash(s: string)
    requires '\\' !in s
    ensures forall name :: name in Words(s, '/') ==> '\\' !in name
  {
    hide Words;
    WordsAreWords(s, '/', NO_BACKSLASH);
    forall name | name in Words(s, '/') ensures '\\' !in name {
      assert IsWord(name, '/', NO_BACKSLASH);
    }
  }

  lemma {:induction false} JoinedWithoutBackslash(path: Path)
    requires forall name :: name in path ==> '\\' !in name
    ensures '\\' !in JoinWords(path, '/')
  {
    if path != [] {
      assert path[0] in path;
      JoinedWithoutBackslash(path[1..]);
    }
  }

  /** The text form of a relative path leads back to the file exactly when no name on the
      way has a backslash. */
  lemma RelativeLeadsBack(root: Path, path: Path)
    requires AreEntryNames(path)
    ensures Resolve(root, Relative(path)) == root + path <==> forall name :: name in path ==> '\\' !in name
  {
    hide Words, JoinWords, Slashed;
    WordsWithoutBackslash(Relative(path));
    EntryNamesAreWords(path);
    WordsOfJoined(path, '/', ANY);
    SameTail(root, Words(Relative(path), '/'), path);
    if forall name :: name in path ==> '\\' !in name {
      JoinedWithoutBackslash(path);
    }
  }

  lemma SameTail(root: Path, a: Path, b: Path)
    ensures root + a == root + b <==> a == b
  {
    assert (root + a)[|root|..] == a && (root + b)[|root|..] == b;
  }

  lemma RelativeOfPlain(path: Path)
    requires IsPlain(path)
    ensures Words(Relative(path), '/') == path && '\0' !in Relative(path)
  {
    hide Words, JoinWords, Slashed;
    RelativeLeadsBack([], path);
    RelativeWithoutNul(path);
    assert [] + path == path && [] + Words(Relative(path), '/') == Words(Relative(path), '/');
  }

  lemma RelativeWithoutNul(path: Path)
    requires AreEntryNames(path)
    ensures '\0' !in Relative(path)
  {
    hide JoinWords;
    JoinedWithoutNul(path);
  }

  lemma {:induction false} JoinedWithoutNul(path: Path)
    requires AreEntryNames(path)
    ensures '\0' !in JoinWords(path, '/')
  {
    if path != [] {
      assert path[0] in path;
      JoinedWithoutNul(path[1..]);
    }
  }

  // ---------- what a package directory holds ----------

  /** `should_skip_entry`. */
  predicate IsSkipped(name: string) {
    name in [".num-package.json", ".git", ".DS_Store", ".num-state", "target", "node_modules", "dist"]
  }

  predicate HasNoSkipped(path: Path) { forall name :: name in path ==> !IsSkipped(name) }

  predicate IsBelow(dir: Path, p: Path) { dir <= p && |dir| < |p| }

  /** What every file system keeps: no file is also a directory, and names are allowed. */
  ghost predicate WellFormed(tree: Tree) {
    && (forall p :: p in tree ==> AreEntryNames(p))
    && (forall p, q :: p in tree && q in tree ==> !IsBelow(p, q))
  }

  /** The files under `dir` that no skipped name leads to. */
  ghost function KeptFiles(tree: Tree, dir: Path): set<Path> {
    set p | p in tree && IsBelow(dir, p) && HasNoSkipped(p[|dir|..])
  }

  /** What a package at `root` consists of, by paths relative to it. */
  ghost function Contents(tree: Tree, root: Path): map<Path, Bytes> {
    map q | q in RelativePaths(tree, root) :: tree[root + q]
  }

  ghost function RelativePaths(tree: Tree, root: Path): (paths: set<Path>)
    ensures forall q :: q in paths ==> root + q in tree
  {
    assert forall p :: p in KeptFiles(tree, root) ==> root + p[|root|..] == p;
    set p | p in KeptFiles(tree, root) :: p[|root|..]
  }

  predicate IsDir(tree: Tree, p: Path) { exists q :: q in tree && IsBelow(p, q) }

  function Entries(tree: Tree, dir: Path): set<string> {
    set p | p in tree && IsBelow(dir, p) :: p[|dir|]
  }

  /** The kept files that the entries `names` of `dir` lead to. */
  ghost function KeptThrough(tree: Tree, dir: Path, names: set<string>): set<Path> {
    set p | p in KeptFiles(tree, dir) && p[|dir|] in names
  }

  ghost function KeptAt(tree: Tree, dir: Path, name: string): set<Path> {
    if IsSkipped(name) then {}
    else if IsDir(tree, dir + [name]) then KeptFiles(tree, dir + [name])
    else {dir + [name]}
  }

  lemma EntryIsFileOrDir(tree: Tree, dir: Path, name: string)
    requires name in Entries(tree, dir)
    ensures IsDir(tree, dir + [name]) || dir + [name] in tree
  {
    var p :| p in tree && IsBelow(dir, p) && p[|dir|] == name;
    if |p| == |dir| + 1 {
      assert p == dir + [name];
    } else {
      assert IsBelow(dir + [name], p);
    }
  }

  lemma SkippedFrom(dir: Path, p: Path)
    requires IsBelow(dir, p)
    ensures HasNoSkipped(p[|dir|..]) <==> !IsSkipped(p[|dir|]) && HasNoSkipped(p[|dir| + 1..])
  {
    hide IsSkipped;
    assert p[|dir|..] == [p[|dir|]] + p[|dir| + 1..];
  }

  lemma ThroughOne(tree: Tree, dir: Path, name: string, p: Path)
    requires WellFormed(tree) && name in Entries(tree, dir)
    ensures p in KeptAt(tree, dir, name) <==> p in KeptFiles(tree, dir) && p[|dir|] == name
  {
    hide IsSkipped, HasNoSkipped;
    EntryIsFileOrDir(tree, dir, name);
    if p in tree && IsBelow(dir, p) {
      SkippedFrom(dir, p);
      if p[|dir|] == name {
        if |p| == |dir| + 1 {
          assert p == dir + [name];
          NoSkippedInEmpty(p[|dir| + 1..]);
          assert !IsDir(tree, p);
        } else {
          assert IsBelow(dir + [name], p);
        }
      }
    }
  }

  lemma NoSkippedInEmpty(path: Path)
    requires path == []
    ensures HasNoSkipped(path)
  {}

  lemma ThroughOneMore(tree: Tree, dir: Path, names: set<string>, name: string)
    requires WellFormed(tree) && name in Entries(tree, dir) && name !in names
    ensures KeptThrough(tree, dir, names + {name}) == KeptThrough(tree, dir, names) + KeptAt(tree, dir, name)
    ensures KeptThrough(tree, dir, names) !! KeptAt(tree, dir, name)
  {
    hide KeptFiles, KeptAt;
    KeptAreBelow(tree, dir);
    forall p ensures p in KeptAt(tree, dir, name) <==> p in KeptFiles(tree, dir) && p[|dir|] == name {
      ThroughOne(tree, dir, name, p);
    }
  }

  lemma KeptAreBelow(tree: Tree, dir: Path)
    ensures forall p :: p in KeptFiles(tree, dir) ==> p in tree && IsBelow(dir, p)
  {}

  lemma ThroughAll(tree: Tree, dir: Path)
    ensures KeptThrough(tree, dir, Entries(tree, dir)) == KeptFiles(tree, dir)
    ensures KeptThrough(tree, dir, {}) == {}
  {}

  /** The list `collect_files` appends to while it descends. */
  class PackageFiles {
    const tree: Tree
    const root: Path
    var files: seq<string>
    ghost var paths: seq<Path>

    constructor (tree: Tree, root: Path)
      ensures this.tree == tree && this.root == root && files == [] && paths == [] && Valid()
    {
      this.tree, this.root, files, paths := tree, root, [], [];
    }

    /** Each text is that of a file under the root. */
    ghost predicate Valid()
      reads this
    {
      && |files| == |paths|
      && forall i :: 0 <= i < |files| ==> root <= paths[i] && files[i] == Relative(paths[i][|root|..])
    }

    method Push(p: Path)
      requires Valid() && root <= p
      modifies this
      ensures Valid() && paths == old(paths) + [p]
    {
      hide Relative;
      files := files + [Relative(p[|root|..])];
      paths := paths + [p];
    }

    /** `collect_files`: the entries come in any order. */
    method CollectFiles(dir: Path, ghost depth: nat)
      requires WellFormed(tree) && Valid() && root <= dir
      requires forall p :: p in tree ==> |p| <= depth
      modifies this
      ensures Valid()
      ensures multiset(paths) == old(multiset(paths)) + multiset(KeptFiles(tree, dir))
      decreases depth - |dir|, 1
    {
      hide KeptThrough, KeptFiles, KeptAt, WellFormed, Valid;
      var rest := Entries(tree, dir);
      ghost var done: set<string> := {};
      ThroughAll(tree, dir);
      while rest != {}
        invariant Valid() && done + rest == Entries(tree, dir) && done !! rest
        invariant multiset(paths) == old(multiset(paths)) + multiset(KeptThrough(tree, dir, done))
        decreases rest
      {
        var name :| name in rest;
        rest := rest - {name};
        ThroughOneMore(tree, dir, done, name);
        DisjointUnion(KeptThrough(tree, dir, done), KeptAt(tree, dir, name));
        done := done + {name};
        CollectEntry(dir, name, depth);
      }
      assert done == Entries(tree, dir);
    }

    /** One turn of its loop. */
    method CollectEntry(dir: Path, name: string, ghost depth: nat)
      requires WellFormed(tree) && Valid() && root <= dir && name in Entries(tree, dir)
      requires forall p :: p in tree ==> |p| <= depth
      modifies this
      ensures Valid()
      ensures multiset(paths) == old(multiset(paths)) + multiset(KeptAt(tree, dir, name))
      decreases depth - |dir|, 0
    {
      hide KeptThrough, KeptFiles, IsSkipped, WellFormed, Valid;
      var path := dir + [name];
      EntryIsFileOrDir(tree, dir, name);
      if IsSkipped(name) {
        return;
      }
      if IsDir(tree, path) {
        CollectFiles(path, depth);
      } else if path in tree {
        Push(path);
      }
    }
  }

  lemma DisjointUnion<T>(a: set<T>, b: set<T>)
    requires a !! b
    ensures multiset(a + b) == multiset(a) + multiset(b)
  {}

  // ---------- the sorted list of a package's files ----------

  /** The sorted list of a set of strings. */
  ghost function SortedStrings(s: set<string>): (list: seq<string>)
    ensures StrictlySorted(list, CompareString)
    ensures forall x :: x in list <==> x in s
  {
    hide CompareString;
    if s == {} then []
    else
      var x :| x in s;
      var rest := SortedStrings(s - {x});
      CompareStringIsTotalOrder();
      InsertKeepsStrict(x, rest, CompareString);
      assert forall y :: y in Insert(x, rest, CompareString) <==> y in multiset(Insert(x, rest, CompareString));
      Insert(x, rest, CompareString)
  }

  ghost function RelativeTexts(paths: set<Path>): set<string> { set q | q in paths :: Relative(q) }

  ghost function DepthOf(paths: set<Path>): (depth: nat)
    ensures forall p :: p in paths ==> |p| <= depth
  {
    if paths == {} then 0
    else
      var p :| p in paths;
      |p| + DepthOf(paths - {p})
  }

  lemma OnceEach(paths: seq<Path>, kept: set<Path>, i: nat, j: nat)
    requires multiset(paths) == multiset(kept) && i < j < |paths|
    ensures paths[i] != paths[j] && paths[i] in kept && paths[j] in kept
  {
    assert paths[i] in multiset(paths) && paths[j] in multiset(paths);
    if paths[i] == paths[j] {
      CountedTwice(paths, i, j);
    }
  }

  lemma CountedTwice(paths: seq<Path>, i: nat, j: nat)
    requires i < j < |paths| && paths[i] == paths[j]
    ensures multiset(paths)[paths[j]] >= 2
  {
    assert paths == paths[..j] + [paths[j]] + paths[j + 1..];
    assert paths[i] in paths[..j];
  }

  lemma RelativeInjective(root: Path, p: Path, q: Path)
    requires root <= p && root <= q && IsPlain(p[|root|..]) && IsPlain(q[|root|..])
    requires Relative(p[|root|..]) == Relative(q[|root|..])
    ensures p == q
  {
    hide Relative;
    RelativeOfPlain(p[|root|..]);
    RelativeOfPlain(q[|root|..]);
    assert p == root + p[|root|..] && q == root + q[|root|..];
  }

  lemma NamesOfTail(root: Path, p: Path)
    requires AreEntryNames(p) && root <= p
    ensures AreEntryNames(p[|root|..])
  {
    hide IsEntryName;
    forall name | name in p[|root|..] ensures IsEntryName(name) {
      assert name in p;
    }
  }

  /** The text of each path from its `n`-th name on. */
  function Texts(paths: seq<Path>, n: nat): (texts: seq<string>)
    ensures |texts| == |paths|
  {
    seq(|paths|, i requires 0 <= i < |paths| => Relative(if n <= |paths[i]| then paths[i][n..] else []))
  }

  ghost function Enumerated(paths: set<Path>): (list: seq<Path>)
    ensures multiset(list) == multiset(paths)
  {
    if paths == {} then []
    else
      var p :| p in paths;
      assert paths == (paths - {p}) + {p};
      Enumerated(paths - {p}) + [p]
  }

  /** The texts of a package's files, sorted; two of them are equal if their names differ
      in a backslash only. */
  ghost function CollectedTexts(tree: Tree, root: Path): seq<string> {
    SortBy(Texts(Enumerated(KeptFiles(tree, root)), |root|), CompareString)
  }

  lemma {:induction false} PermutedTexts(a: seq<Path>, b: seq<Path>, n: nat)
    requires multiset(a) == multiset(b)
    ensures multiset(Texts(a, n)) == multiset(Texts(b, n))
    decreases |a|
  {
    hide Removed, Texts;
    assert |a| == |multiset(a)| == |b|;
    if a != [] {
      var i := FirstOccurs(a, b);
      var rest, tail := Removed(b, i), Removed(a, 0);
      RemovedOne(a, 0);
      RemovedOne(b, i);
      Cancel(multiset(tail), multiset(rest), a[0]);
      PermutedTexts(tail, rest, n);
      RemovedOne(Texts(a, n), 0);
      RemovedOne(Texts(b, n), i);
      TextsRemoved(a, 0, n);
      TextsRemoved(b, i, n);
    } else {
      assert a == b;
    }
  }

  lemma Cancel<T>(a: multiset<T>, b: multiset<T>, x: T)
    requires a + multiset{x} == b + multiset{x}
    ensures a == b
  {
    assert a == (a + multiset{x}) - multiset{x} && b == (b + multiset{x}) - multiset{x};
  }

  lemma TextsRemoved(paths: seq<Path>, i: nat, n: nat)
    requires i < |paths|
    ensures Texts(Removed(paths, i), n) == Removed(Texts(paths, n), i)
    ensures Texts(paths, n)[i] == Relative(if n <= |paths[i]| then paths[i][n..] else [])
  {
    hide Relative;
  }

  function Removed<T>(s: seq<T>, i: nat): seq<T>
    requires i < |s|
  {
    s[..i] + s[i + 1..]
  }

  lemma RemovedOne<T>(s: seq<T>, i: nat)
    requires i < |s|
    ensures multiset(s) == multiset(Removed(s, i)) + multiset{s[i]} && |Removed(s, i)| == |s| - 1
  {
    assert s == s[..i] + [s[i]] + s[i + 1..];
  }

  /** Whatever order files are found in, their texts sort to one list. */
  lemma FoundSorts(tree: Tree, root: Path, paths: seq<Path>)
    requires multiset(paths) == multiset(KeptFiles(tree, root))
    ensures SortBy(Texts(paths, |root|), CompareString) == CollectedTexts(tree, root)
  {
    hide Texts, CompareString, KeptFiles;
    var a, b := Texts(paths, |root|), Texts(Enumerated(KeptFiles(tree, root)), |root|);
    CompareStringIsTotalOrder();
    PermutedTexts(paths, Enumerated(KeptFiles(tree, root)), |root|);
    SortBySorts(a, CompareString);
    SortBySorts(b, CompareString);
    SortedIsUnique(SortBy(a, CompareString), SortBy(b, CompareString), CompareString);
  }

  /** No kept file has a backslash in its name. */
  ghost predicate PlainFiles(tree: Tree, root: Path) {
    forall q :: q in RelativePaths(tree, root) ==> IsPlain(q)
  }

  /** Then the list is that of the files' paths, each once. */
  lemma PlainTexts(tree: Tree, root: Path)
    requires PlainFiles(tree, root)
    ensures CollectedTexts(tree, root) == SortedStrings(RelativeTexts(RelativePaths(tree, root)))
  {
    hide Relative, CompareString, IsPlain, KeptFiles;
    KeptAreBelow(tree, root);
    var paths := Enumerated(KeptFiles(tree, root));
    var files := Texts(paths, |root|);
    CompareStringIsTotalOrder();
    forall i, j | 0 <= i < j < |files| ensures !CompareString(files[i], files[j]).Equal? {
      OnceEach(paths, KeptFiles(tree, root), i, j);
      assert paths[i][|root|..] in RelativePaths(tree, root) && paths[j][|root|..] in RelativePaths(tree, root);
      if files[i] == files[j] { RelativeInjective(root, paths[i], paths[j]); }
    }
    SortBySortsStrictly(files, CompareString);
    var sorted, texts := SortBy(files, CompareString), RelativeTexts(RelativePaths(tree, root));
    forall x ensures x in sorted <==> x in texts {
      assert x in multiset(sorted) <==> x in multiset(files);
      FoundTexts(tree, root, paths, x);
    }
    StrictlySortedIsUnique(sorted, SortedStrings(texts), CompareString);
  }

  lemma FoundTexts(tree: Tree, root: Path, paths: seq<Path>, x: string)
    requires multiset(paths) == multiset(KeptFiles(tree, root))
    ensures x in Texts(paths, |root|) <==> x in RelativeTexts(RelativePaths(tree, root))
  {
    hide Relative, KeptFiles;
    KeptAreBelow(tree, root);
    var files, kept := Texts(paths, |root|), KeptFiles(tree, root);
    if x in files {
      var i :| 0 <= i < |files| && files[i] == x;
      assert paths[i] in multiset(paths);
      assert paths[i][|root|..] in RelativePaths(tree, root);
    }
    if x in RelativeTexts(RelativePaths(tree, root)) {
      var q :| q in RelativePaths(tree, root) && Relative(q) == x;
      var p :| p in kept && q == p[|root|..];
      assert p in multiset(paths);
      var i :| 0 <= i < |paths| && paths[i] == p;
      assert files[i] == x;
    }
  }

  lemma TextsHaveNoNul(tree: Tree, root: Path)
    requires WellFormed(tree)
    ensures forall x :: x in CollectedTexts(tree, root) ==> '\0' !in x
  {
    hide Relative, KeptFiles, AreEntryNames, CompareString;
    KeptAreBelow(tree, root);
    var paths := Enumerated(KeptFiles(tree, root));
    forall x | x in CollectedTexts(tree, root) ensures '\0' !in x {
      assert x in multiset(CollectedTexts(tree, root)) <==> x in multiset(Texts(paths, |root|));
      var i :| 0 <= i < |paths| && Texts(paths, |root|)[i] == x;
      assert paths[i] in multiset(paths);
      NamesOfTail(root, paths[i]);
      RelativeWithoutNul(paths[i][|root|..]);
    }
  }

  /** `collect_package_files`: the package's files in the one sorted order. */
  method CollectPackageFiles(tree: Tree, root: Path) returns (files: seq<string>)
    requires WellFormed(tree)
    ensures files == CollectedTexts(tree, root)
  {
    hide KeptFiles, CompareString, CollectedTexts;
    var found := new PackageFiles(tree, root);
    found.CollectFiles(root, DepthOf(tree.Keys));
    assert multiset{} + multiset(KeptFiles(tree, root)) == multiset(KeptFiles(tree, root));
    FoundSorts(tree, root, found.paths);
    FilesAreTexts(found);
    files := SortBy(found.files, CompareString);
  }

  lemma FilesAreTexts(found: PackageFiles)
    requires found.Valid()
    ensures found.files == Texts(found.paths, |found.root|)
  {
    hide Relative;
  }
}
