/** Names with a backslash, which the text form of a path turns into a slash: exactly when
    reading and placing a package lose something to them (`registry.rs`). */
module PlainNames {
  import opened Wrappers
  import opened Names
  import opened Order
  import opened FileTree
  import opened RegistryMetadata
  import opened Placement

  predicate HasNoBackslash(path: Path) { forall name :: name in path ==> '\\' !in name }

  // ---------- reading ----------

  lemma TextsAreRelative(tree: Tree, root: Path, text: string)
    ensures text in CollectedTexts(tree, root) <==> text in RelativeTexts(RelativePaths(tree, root))
  {
    hide Relative, KeptFiles, CompareString, RelativePaths;
    var paths := Enumerated(KeptFiles(tree, root));
    FoundTexts(tree, root, paths, text);
    assert text in multiset(CollectedTexts(tree, root)) <==> text in multiset(Texts(paths, |root|));
  }

  lemma {:induction false} ReadsEach(tree: Tree, root: Path, texts: seq<string>)
    ensures ReadAll(tree, root, texts).Some? <==> forall text :: text in texts ==> Resolve(root, text) in tree
  {
    hide Words;
    if texts != [] {
      var front := texts[..|texts| - 1];
      ReadsEach(tree, root, front);
      assert texts == front + [texts[|texts| - 1]];
    }
  }

  /** The files of a package can be read exactly if the text of each path leads to a file,
      be it another one. */
  lemma ReadableWhenLed(tree: Tree, root: Path)
    ensures Sources(tree, root).Some? <==>
            forall q :: q in RelativePaths(tree, root) ==> Resolve(root, Relative(q)) in tree
  {
    hide Words, Relative, KeptFiles, RelativePaths, CollectedTexts, ReadAll;
    var texts := CollectedTexts(tree, root);
    ReadsEach(tree, root, texts);
    forall text ensures text in texts <==> text in RelativeTexts(RelativePaths(tree, root)) {
      TextsAreRelative(tree, root, text);
    }
    forall q | q in RelativePaths(tree, root) ensures Relative(q) in texts {}
  }

  // ---------- placing ----------

  /** What lies under a directory came there by texts, which have no backslash. */
  ghost predicate PlainUnder(tree: Tree, dir: Path) {
    forall p :: p in tree && dir <= p ==> HasNoBackslash(p[|dir|..])
  }

  lemma {:induction false} CopyIsPlain(tree: Tree, from: Path, to: Path, texts: seq<string>)
    requires PlainUnder(tree, to) && forall text :: text in texts ==> '\\' !in text
    ensures PlainUnder(CopyAll(tree, from, to, texts).1, to)
  {
    hide CanPlace, Words, HasNoBackslash;
    if texts != [] {
      var text := texts[|texts| - 1];
      CopyIsPlain(tree, from, to, texts[..|texts| - 1]);
      assert Resolve(to, text)[|to|..] == Words(text, '/');
      WordsArePlain(text);
    }
  }

  lemma WordsArePlain(text: string)
    requires '\\' !in text
    ensures HasNoBackslash(Words(text, '/'))
  {
    hide Words;
    WordsWithoutBackslash(text);
  }

  lemma CollectedWithoutBackslash(tree: Tree, root: Path)
    ensures forall text :: text in CollectedTexts(tree, root) ==> '\\' !in text
  {
    hide CollectedTexts, RelativePaths;
    forall text | text in CollectedTexts(tree, root) ensures '\\' !in text {
      TextsAreRelative(tree, root, text);
    }
  }

  lemma MetadataHasNoBackslash()
    ensures HasNoBackslash([METADATA_FILE])
  {}

  /** Whatever a package holds, nothing placed has a backslash in its name. */
  lemma PlacedIsPlain(tree: Tree, from: Path, to: Path, metadata: Bytes)
    requires PlaceAll(tree, from, to, CollectedTexts(tree, from), metadata).0
    ensures PlainUnder(PlaceAll(tree, from, to, CollectedTexts(tree, from), metadata).1, to)
  {
    hide CanPlace, CopyAll, HasNoBackslash, CollectedTexts;
    var base := if Exists(tree, to) then Without(tree, to) else tree;
    assert PlainUnder(base, to);
    CollectedWithoutBackslash(tree, from);
    CopyIsPlain(base, from, to, CollectedTexts(tree, from));
    MetadataHasNoBackslash();
    assert MetadataPath(to)[|to|..] == [METADATA_FILE];
  }

  lemma AboveTheMetadata(p: Path, dir: Path)
    requires p <= dir
    ensures IsBelow(p, MetadataPath(dir))
  {}

  /** Where something was placed, no file was in the way. */
  lemma PlacedWasWritable(tree: Tree, from: Path, to: Path, texts: seq<string>, metadata: Bytes)
    requires PlaceAll(tree, from, to, texts, metadata).0
    ensures IsWritable(tree, to)
  {
    hide CopyAll;
    var base := if Exists(tree, to) then Without(tree, to) else tree;
    CopyKeepsOutside(base, from, to, texts);
    forall p | p in tree ensures !(p <= to) {
      if p <= to {
        assert p != to && !(to <= p);
        assert p in CopyAll(base, from, to, texts).1;
        AboveTheMetadata(p, to);
      }
    }
  }

  lemma PlainWhenFound(tree: Tree, from: Path, after: Tree, to: Path)
    requires WellFormed(tree) && PlainUnder(after, to) && Contents(after, to) == Contents(tree, from)
    ensures PlainFiles(tree, from)
  {
    hide Contents, HasNoSkipped;
    forall q | q in RelativePaths(tree, from) ensures IsPlain(q) {
      ContentsArePlain(tree, from);
      assert q in Contents(tree, from) && q in Contents(after, to);
      ContentsAt(tree, from, q);
      ContentsAt(after, to, q);
      assert (to + q)[|to|..] == q && (from + q)[|from|..] == q;
      NamesOfTail(from, from + q);
    }
  }

  /** A package none of whose files lies in the target arrives as it was exactly if no name
      in it has a backslash and no file is in the way of the target. */
  lemma ArrivesWhenPlain(tree: Tree, from: Path, to: Path, metadata: Bytes)
    requires WellFormed(tree) && Apart(from, to, Contents(tree, from))
    ensures var placed := PlaceAll(tree, from, to, CollectedTexts(tree, from), metadata);
            placed.0 && Contents(placed.1, to) == Contents(tree, from) <==>
              PlainFiles(tree, from) && IsWritable(tree, to)
  {
    hide WellFormed, Contents, Apart, CollectedTexts, PlaceAll, PlainFiles, IsWritable, PlainUnder, WithPackage;
    var placed := PlaceAll(tree, from, to, CollectedTexts(tree, from), metadata);
    if PlainFiles(tree, from) && IsWritable(tree, to) {
      PlaceIsWithPackage(tree, from, to, metadata);
      ContentsArePackage(tree, from);
      PlacedIsFound(tree, to, Contents(tree, from), metadata);
    }
    if placed.0 && Contents(placed.1, to) == Contents(tree, from) {
      PlacedWasWritable(tree, from, to, CollectedTexts(tree, from), metadata);
      PlacedIsPlain(tree, from, to, metadata);
      PlainWhenFound(tree, from, placed.1, to);
    }
  }

  // ---------- a file called `a\b` ----------

  const BACKSLASHED := ["a\\b"]

  lemma BackslashedText()
    ensures Relative(BACKSLASHED) == "a/b" && Words("a/b", '/') == ["a", "b"]
    ensures HasNoSkipped(BACKSLASHED) && !IsPlain(BACKSLASHED)
  {
    hide Words;
    WordThenRest("a", "/b", '/');
    WordThenRest("b", "", '/');
    SeparatorThenWords("b", '/');
    NoWords('/');
    assert "a" + "/b" == "a/b" && "b" + "" == "b" && ['/'] + "b" == "/b";
    assert BACKSLASHED[0] in BACKSLASHED && BACKSLASHED[0][1] == '\\';
    assert Relative(BACKSLASHED) == "a/b";
  }

  /** A package with such a file cannot be read unless it also holds `a/b`, and then the one
      is taken for the other: wherever it is placed, it does not arrive as it was. */
  lemma BackslashIsLost(tree: Tree, from: Path, to: Path, metadata: Bytes)
    requires WellFormed(tree) && from + BACKSLASHED in tree && Apart(from, to, Contents(tree, from))
    ensures Sources(tree, from).Some? ==> from + ["a", "b"] in tree
    ensures var placed := PlaceAll(tree, from, to, CollectedTexts(tree, from), metadata);
            !(placed.0 && Contents(placed.1, to) == Contents(tree, from))
  {
    hide WellFormed, Contents, Apart, CollectedTexts, PlaceAll, IsWritable, ReadAll, Words, Relative, HasNoSkipped,
      IsPlain;
    BackslashedText();
    InContents(tree, from, BACKSLASHED);
    ContentsArePlain(tree, from);
    ReadableWhenLed(tree, from);
    ArrivesWhenPlain(tree, from, to, metadata);
  }
}
