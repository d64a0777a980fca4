/**
 The plan that brings a manifest up to date (`plan_manifest_source` in `migration.rs`):
 it never asks for a second edit, and exactly which readings it changes.
 */
module ManifestPlan {
  import opened Wrappers
  import opened Text
  import opened TomlText
  import opened ManifestText
  import opened ManifestMigration

  // ---------- sections ----------

  /** A header the planner takes for `[language]` opens that section for the reader too. */
  lemma PlannedIsRead(line: string)
    requires SectionPlanned(line) == Some("language")
    ensures SectionRead(line) == "language"
  {
    hide Trim;
    var inner := line[1..|line| - 1];
    var left, right := TrimSplits(inner);
    assert inner == left + "language" + right && inner != "";
    assert inner[0] != '[' && inner[|inner| - 1] != ']' by {
      BracketsAreNoSpace();
      InnerEnds(left, "language", right);
    }
    assert line[1..] == inner + "]";
    assert TrimStartMatches(line, '[') == inner + "]";
    assert (inner + "]")[..|inner|] == inner;
    assert TrimEndMatches(inner, ']') == inner;
  }

  lemma BracketsAreNoSpace()
    ensures !IsWhitespace('[') && !IsWhitespace(']')
  {}

  lemma InnerEnds(left: string, core: string, right: string)
    requires AllWhitespace(left) && AllWhitespace(right) && core == "language"
    requires !IsWhitespace('[') && !IsWhitespace(']')
    ensures var s := left + core + right; s[0] != '[' && s[|s| - 1] != ']'
  {
    hide IsWhitespace;
    if left != "" { assert left[0] in left; }
    if right != "" { assert right[|right| - 1] in right; }
  }

  predicate HasNoHeader(lines: seq<string>) { forall x :: 0 <= x < |lines| ==> !IsHeader(lines[x]) }

  lemma SettingsNameTheirSection(section: string, line: string)
    ensures SettingAt(section, line).Some? ==> SettingAt(section, line).value.section == section
  {}

  lemma {:induction false} NoHeaderMeaning(section: string, lines: seq<string>)
    requires HasNoHeader(lines)
    ensures EndSection(section, lines) == section
    ensures section == "language" || section == "" ==> Settings(section, lines) == []
    ensures section != "language" ==> forall k: LanguageKey :: Last(k, section, lines) == None
  {
    hide IsHeader, SettingAt;
    if lines != [] {
      NoHeaderMeaning(section, lines[..|lines| - 1]);
      SettingsNameTheirSection(section, lines[|lines| - 1]);
    }
  }

  /** Under the section's own header, a key is set by some line exactly if the planner
      sees it there. */
  lemma {:induction false} SetInSection(k: LanguageKey, lines: seq<string>)
    requires HasNoHeader(lines)
    ensures Last(k, "language", lines).Some? <==> exists x :: 0 <= x < |lines| && KeyAt(lines[x]) == Some(k.Name())
  {
    hide IsHeader, SetAt, KeyAt;
    if lines != [] {
      var n := |lines| - 1;
      SetInSection(k, lines[..n]);
      NoHeaderMeaning("language", lines[..n]);
      KeysAgree(k, lines[n]);
      if Last(k, "language", lines[..n]).Some? {
        var x :| 0 <= x < n && KeyAt(lines[..n][x]) == Some(k.Name());
        assert KeyAt(lines[x]) == Some(k.Name());
      }
    }
  }

  /** Lines that begin with a header read the same after any section. */
  lemma {:induction false} HeaderForgets(k: LanguageKey, s: string, t: string, lines: seq<string>)
    requires lines != [] ==> IsHeader(lines[0])
    ensures lines != [] ==> EndSection(s, lines) == EndSection(t, lines)
    ensures Settings(s, lines) == Settings(t, lines) && Last(k, s, lines) == Last(k, t, lines)
  {
    hide IsHeader, SectionRead, SplitOnce, ReadValue;
    if |lines| == 1 {
      assert lines[..0] == [];
    } else if lines != [] {
      HeaderForgets(k, s, t, lines[..|lines| - 1]);
    }
  }

  // ---------- inserted lines ----------

  function Inserted(ks: seq<LanguageKey>): seq<string> { CleanAll(DefaultLines(ks)) }

  lemma InsertedLast(ks: seq<LanguageKey>)
    requires ks != []
    ensures Inserted(ks) == Inserted(ks[..|ks| - 1]) + [Clean(DefaultLine(ks[|ks| - 1]))]
  {
    hide Clean, DefaultLine;
  }

  lemma {:induction false} InsertedMeaning(k: LanguageKey, ks: seq<LanguageKey>)
    ensures HasNoHeader(Inserted(ks))
    ensures Last(k, "language", Inserted(ks)) == if k in ks then Some(Some(Default(k))) else None
  {
    hide Clean, DefaultLine, IsHeader, SetAt, KeyAt, KeptSetting, Default, Inserted, Last;
    if ks == [] {
      NothingInserted(k);
    } else {
      var n := |ks| - 1;
      var line := Clean(DefaultLine(ks[n]));
      InsertedMeaning(k, ks[..n]);
      InsertedLast(ks);
      DefaultLineReads(ks[n]);
      NoHeaderMeaning("language", Inserted(ks[..n]));
      LastConcat(k, "language", Inserted(ks[..n]), [line]);
      ReadOne(k, "language", line);
      assert ks == ks[..n] + [ks[n]];
    }
  }

  lemma NothingInserted(k: LanguageKey)
    ensures Inserted([]) == [] && Last(k, "language", []) == None
  {}

  /** Defaults put right under a `[language]` header: a later setting still counts, and an
      earlier one does not any more. */
  lemma InsertMeaning(k: LanguageKey, a: seq<string>, ks: seq<LanguageKey>, b: seq<string>)
    requires EndSection("", a) == "language"
    ensures var out := a + Inserted(ks) + b;
            && Settings("", out) == Settings("", a) + Settings("language", b)
            && Last(k, "", out) == (var later := Last(k, "language", b);
                                    if later.Some? then later
                                    else if k in ks then Some(Some(Default(k))) else Last(k, "", a))
  {
    hide Inserted, Default, EndSection, Settings, Last, IsHeader;
    var ins := Inserted(ks);
    InsertedMeaning(k, ks);
    NoHeaderMeaning("language", ins);
    EndSectionConcat("", a, ins);
    SettingsConcat("", a, ins);
    SettingsConcat("", a + ins, b);
    LastConcat(k, "", a, ins);
    LastConcat(k, "", a + ins, b);
  }

  /** Replacing a line that sets the schema to 0. */
  lemma UpgradeMeaning(k: LanguageKey, lines: seq<string>, i: nat)
    requires i < |lines| && HasNoHeader(lines[..i + 1])
    requires KeyAt(lines[i]) == Some(ManifestSchema.Name()) && SchemaAt(lines[i]) == Some(0)
    ensures var out := lines[i := Clean(DefaultLine(ManifestSchema))];
            var later := Last(k, "language", lines[i + 1..]);
            && Settings("language", out) == Settings("language", lines)
            && (!k.ManifestSchema? || later.Some? ==> Last(k, "language", out) == Last(k, "language", lines))
            && (k.ManifestSchema? && later.None? ==>
                  Last(k, "language", out) == Some(Some(Number(1)))
                    && Last(k, "language", lines) == Some(Some(Number(0))))
  {
    hide Clean, DefaultLine, IsHeader, SetAt, KeyAt, KeptSetting, SchemaAt, EndSection, Settings, Last;
    var line := Clean(DefaultLine(ManifestSchema));
    var out := lines[i := line];
    var a, b := lines[..i], lines[i + 1..];
    DefaultLineReads(ManifestSchema);
    SchemaIsSet(k, lines[i]);
    assert lines[i] == lines[..i + 1][i] && HasNoHeader(a) by {
      assert forall x :: 0 <= x < i ==> a[x] == lines[..i + 1][x];
    }
    OneLineThenRest(k, a, lines[i], b);
    OneLineThenRest(k, a, line, b);
    assert lines == a + [lines[i]] + b && out == a + [line] + b;
  }

  lemma SchemaIsSet(k: LanguageKey, line: string)
    requires !IsHeader(line) && KeyAt(line) == Some(ManifestSchema.Name()) && SchemaAt(line) == Some(0)
    ensures SetAt(k, "language", line) == if k.ManifestSchema? then Some(Some(Number(0))) else None
    ensures KeptSetting("language", line) == []
  {
    hide SplitOnce, Trim, IsHeader, ParseUnsigned;
    NamesArePlain(k);
    KeysAgree(ManifestSchema, line);
    TrimTwice(SplitOnce(line, '=').value.1);
  }

  lemma OneLineThenRest(k: LanguageKey, a: seq<string>, line: string, b: seq<string>)
    requires HasNoHeader(a) && !IsHeader(line) && KeptSetting("language", line) == []
    ensures var lines := a + [line] + b;
            var later, here := Last(k, "language", b), SetAt(k, "language", line);
            && Settings("language", lines) == Settings("language", b)
            && Last(k, "language", lines) ==
               if later.Some? then later else if here.Some? then here else Last(k, "language", a)
  {
    hide SetAt, KeptSetting, IsHeader, EndSection, Settings, Last;
    assert [line][..0] == [];
    NoHeaderMeaning("language", a);
    EndSectionConcat("language", a, [line]);
    SettingsConcat("language", a, [line]);
    LastConcat(k, "language", a, [line]);
    SettingsConcat("language", a + [line], b);
    LastConcat(k, "language", a + [line], b);
    assert EndSection("language", [line]) == "language" by { EndSectionOne("language", line); }
    assert Settings("language", [line]) == [] && Last(k, "language", [line]) == SetAt(k, "language", line) by {
      ReadOne(k, "language", line);
    }
  }

  lemma EndSectionOne(section: string, line: string)
    requires !IsHeader(line)
    ensures EndSection(section, [line]) == section
  {
    assert [line][..0] == [];
  }

  lemma ReadOne(k: LanguageKey, section: string, line: string)
    ensures Settings(section, [line]) == KeptSetting(section, line)
    ensures Last(k, section, [line]) == SetAt(k, section, line)
  {
    hide SetAt, KeptSetting;
    assert [line][..0] == [];
  }

  // ---------- what an edit changes ----------

  /** The keys of the section that begins at `start`, and its schema, need no edit. */
  ghost predicate IsCurrent(lines: seq<string>) {
    var start := LanguageStart(lines);
    && start < |lines| && HasKey(ManifestSchema, lines, start) && (forall k: LanguageKey :: HasKey(k, lines, start))
    && SchemaAt(lines[KeyIndex(ManifestSchema, lines, start)]) == Some(CURRENT_SCHEMA)
  }

  /** The schema of the section cannot be read, or is newer than the program. */
  predicate IsRefused(lines: seq<string>) {
    var start := LanguageStart(lines);
    && start < |lines| && HasKey(ManifestSchema, lines, start)
    && var schema := SchemaAt(lines[KeyIndex(ManifestSchema, lines, start)]);
       schema.None? || schema.value > CURRENT_SCHEMA
  }

  /** The section declares schema 0. */
  predicate IsOutdated(lines: seq<string>) {
    var start := LanguageStart(lines);
    && start < |lines| && HasKey(ManifestSchema, lines, start)
    && SchemaAt(lines[KeyIndex(ManifestSchema, lines, start)]) == Some(0)
  }

  /** ... and no later line sets it again for the reader. */
  predicate IsUpgraded(lines: seq<string>) {
    IsOutdated(lines)
    && Last(ManifestSchema, "language", lines[KeyIndex(ManifestSchema, lines, LanguageStart(lines)) + 1..]).None?
  }

  /** The edit changes what a key reads as. Without a `[language]` header, the lines before
      the first header become part of the new section; with one, a default hides what an
      earlier section, whose header only the reader takes for `[language]`, set. Either way
      a later setting would still count. */
  predicate IsDisturbed(k: LanguageKey, lines: seq<string>) {
    var start := LanguageStart(lines);
    if start == |lines| then
      var first := FirstWhere(AnyHeader, lines, 0, |lines|);
      OrDefault(k, Last(k, "language", lines[..first])) != Default(k) && Last(k, "", lines[first..]).None?
    else
      OrDefault(k, Last(k, "", lines[..start + 1])) != Default(k) && Last(k, "language", lines[start + 1..]).None?
  }

  predicate IsKept(k: LanguageKey, lines: seq<string>) {
    !IsDisturbed(k, lines) && !(k.ManifestSchema? && IsUpgraded(lines))
  }

  /** The lines of the section that begins at `start`. */
  lemma SectionParts(lines: seq<string>, start: nat)
    requires start == LanguageStart(lines) < |lines|
    ensures EndSection("", lines[..start + 1]) == "language"
    ensures HasNoHeader(lines[start + 1..SectionEnd(lines, start)])
    ensures forall k: LanguageKey :: HasKey(k, lines, start) ==> Last(k, "language", lines[start + 1..]).Some?
  {
    hide IsHeader, KeyAt, SectionRead, SetAt, Last, EndSection;
    var end := SectionEnd(lines, start);
    var a, b, section := lines[..start + 1], lines[start + 1..], lines[start + 1..end];
    assert a[..start] == lines[..start];
    EndSectionLast("", a);
    PlannedIsRead(lines[start]);
    PlannedIsHeader(lines[start]);
    forall x | 0 <= x < |section| ensures !IsHeader(section[x]) {
      assert section[x] == lines[start + 1 + x] && !AnyHeader.Holds(lines[start + 1 + x]);
    }
    forall k: LanguageKey | HasKey(k, lines, start) ensures Last(k, "language", b).Some? {
      var i := KeyIndex(k, lines, start);
      assert section[i - start - 1] == lines[i] && KeyNamed(k.Name()).Holds(lines[i]);
      SetInSection(k, section);
      Rejoined(lines, start + 1, end);
      LastConcat(k, "language", section, lines[end..]);
    }
  }

  lemma Rejoined(lines: seq<string>, at: nat, end: nat)
    requires at <= end <= |lines|
    ensures lines[at..] == lines[at..end] + lines[end..]
  {}

  lemma PlannedIsHeader(line: string)
    requires SectionPlanned(line).Some?
    ensures IsHeader(line)
  {}

  lemma EndSectionLast(section: string, lines: seq<string>)
    requires lines != [] && IsHeader(lines[|lines| - 1])
    ensures EndSection(section, lines) == SectionRead(lines[|lines| - 1])
  {
    hide SectionRead, IsHeader;
  }

  /** Editing the section there is: `b` are the lines after the header, `edited` the same
      with the schema brought up to date. */
  lemma EditKeeps(k: LanguageKey, lines: seq<string>, ks: seq<LanguageKey>, edited: seq<string>)
    requires LanguageStart(lines) < |lines|
    requires var start := LanguageStart(lines);
             edited == Upgraded(lines) && forall j: LanguageKey :: j in ks <==> !HasKey(j, lines, start)
    ensures var out := lines[..LanguageStart(lines) + 1] + Inserted(ks) + edited;
            && Settings("", out) == Settings("", lines)
            && (OrDefault(k, Last(k, "", out)) == OrDefault(k, Last(k, "", lines)) <==> IsKept(k, lines))
            && (k.ManifestSchema? && IsUpgraded(lines) ==>
                  OrDefault(k, Last(k, "", lines)) == Number(0) && OrDefault(k, Last(k, "", out)) == Number(1))
  {
    hide LanguageStart, HasKey, KeyIndex, SectionEnd, Settings, Last, Inserted, SchemaAt, IsHeader, KeyAt, EndSection,
      Default;
    var start := LanguageStart(lines);
    var a, b := lines[..start + 1], lines[start + 1..];
    SectionParts(lines, start);
    assert lines == a + b;
    SettingsConcat("", a, b);
    LastConcat(k, "", a, b);
    InsertMeaning(k, a, ks, edited);
    UpgradedMeaning(k, lines);
    DefaultSchema();
  }

  lemma DefaultSchema()
    ensures Default(ManifestSchema) == Number(1)
  {}

  /** The lines after the header, with schema 0 replaced. */
  function Upgraded(lines: seq<string>): seq<string>
    requires LanguageStart(lines) < |lines|
  {
    var start := LanguageStart(lines);
    var b := lines[start + 1..];
    if IsOutdated(lines)
    then b[KeyIndex(ManifestSchema, lines, start) - start - 1 := Clean(DefaultLine(ManifestSchema))]
    else b
  }

  lemma UpgradedMeaning(k: LanguageKey, lines: seq<string>)
    requires LanguageStart(lines) < |lines|
    ensures var b, edited := lines[LanguageStart(lines) + 1..], Upgraded(lines);
            && Settings("language", edited) == Settings("language", b)
            && (!(k.ManifestSchema? && IsUpgraded(lines)) ==> Last(k, "language", edited) == Last(k, "language", b))
            && (k.ManifestSchema? && IsUpgraded(lines) ==>
                  Last(k, "language", edited) == Some(Some(Number(1)))
                    && Last(k, "language", b) == Some(Some(Number(0))))
  {
    hide Settings, Last, IsHeader, KeyAt, SchemaAt, Clean, DefaultLine, LanguageStart, KeyIndex, SectionEnd, HasKey,
      HasNoHeader;
    if IsOutdated(lines) {
      SchemaLine(lines);
      var start := LanguageStart(lines);
      UpgradeMeaning(k, lines[start + 1..], KeyIndex(ManifestSchema, lines, start) - start - 1);
    }
  }

  lemma SchemaLine(lines: seq<string>)
    requires IsOutdated(lines)
    ensures var start := LanguageStart(lines);
            var b, i := lines[start + 1..], KeyIndex(ManifestSchema, lines, start);
            && start < i < |lines| && b[i - start - 1] == lines[i] && lines[i + 1..] == b[i - start..]
            && KeyAt(lines[i]) == Some(ManifestSchema.Name()) && SchemaAt(lines[i]) == Some(0)
            && HasNoHeader(b[..i - start])
  {
    hide IsHeader, KeyAt, SchemaAt;
    var start := LanguageStart(lines);
    var b, i := lines[start + 1..], KeyIndex(ManifestSchema, lines, start);
    SectionParts(lines, start);
    assert KeyNamed(ManifestSchema.Name()).Holds(lines[i]);
    FewerLines(lines[start + 1..SectionEnd(lines, start)], i - start);
    SliceOfSlice(lines, start + 1, SectionEnd(lines, start), i - start);
  }

  lemma SliceOfSlice(lines: seq<string>, at: nat, end: nat, n: nat)
    requires at <= end <= |lines| && n <= end - at
    ensures lines[at..end][..n] == lines[at..][..n]
  {}

  lemma FewerLines(lines: seq<string>, n: nat)
    requires HasNoHeader(lines) && n <= |lines|
    ensures HasNoHeader(lines[..n])
  {
    hide IsHeader;
  }

  /** Putting a whole section in front. */
  lemma PrependKeeps(k: LanguageKey, lines: seq<string>, a: seq<string>, ks: seq<LanguageKey>)
    requires LanguageStart(lines) == |lines| && EndSection("", a) == "language" && Settings("", a) == []
    requires Last(k, "", a) == None && k in ks
    ensures var out := a + Inserted(ks) + ([""] + lines);
            && Settings("", out) == Settings("", lines)
            && (OrDefault(k, Last(k, "", out)) == OrDefault(k, Last(k, "", lines)) <==> IsKept(k, lines))
  {
    hide Settings, Last, Inserted, IsHeader, KeyAt, EndSection, Default;
    InsertMeaning(k, a, ks, [""] + lines);
    BlankReadsNothing(k);
    NothingAtAll(k);
    OneLineThenRest(k, [], "", lines);
    assert [] + [""] + lines == [""] + lines;
    var first := FirstWhere(AnyHeader, lines, 0, |lines|);
    var front, rest := lines[..first], lines[first..];
    assert lines == front + rest;
    assert HasNoHeader(front) by {
      forall x | 0 <= x < first ensures !IsHeader(front[x]) { assert !AnyHeader.Holds(lines[x]); }
    }
    assert rest != [] ==> AnyHeader.Holds(rest[0]);
    NoHeaderMeaning("", front);
    NoHeaderMeaning("language", front);
    SettingsConcat("", front, rest);
    SettingsConcat("language", front, rest);
    LastConcat(k, "", front, rest);
    LastConcat(k, "language", front, rest);
    HeaderForgets(k, "", "language", rest);
  }

  lemma BlankReadsNothing(k: LanguageKey)
    ensures !IsHeader("") && KeptSetting("language", "") == [] && SetAt(k, "language", "") == None && KeyAt("") == None
  {}

  lemma NothingAtAll(k: LanguageKey)
    ensures Last(k, "language", []) == None && HasNoHeader([])
  {}
}
