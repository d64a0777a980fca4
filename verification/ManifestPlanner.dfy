/** `plan_manifest_source` itself, on the text of a manifest (`migration.rs`). */
module ManifestPlanner {
  import opened Wrappers
  import opened Text
  import opened TomlText
  import opened ManifestText
  import opened ManifestMigration
  import opened ManifestPlan

  datatype Action = InsertSection | AddKey(key: LanguageKey) | UpgradeSchema
  datatype Plan = Plan(source: string, changed: bool, actions: seq<Action>)
  datatype PlanError = InvalidSchema | FutureSchema(schema: nat)

  // ---------- an edited section is current ----------

  lemma DefaultSchemaReads()
    ensures SchemaAt(Clean(DefaultLine(ManifestSchema))) == Some(1)
  {
    hide Clean, Trim, SplitOnce, ParseUnsigned;
    NamesArePlain(ManifestSchema);
    DefaultTextReads(ManifestSchema);
    OneReads();
    var rest := KeyLineReads(ManifestSchema.Name(), DefaultText(ManifestSchema));
  }

  lemma InsertedLine(ks: seq<LanguageKey>, t: nat)
    requires t < |ks|
    ensures |Inserted(ks)| == |ks| && KeyAt(Inserted(ks)[t]) == Some(ks[t].Name()) && !IsHeader(Inserted(ks)[t])
    ensures ks[t].ManifestSchema? ==> SchemaAt(Inserted(ks)[t]) == Some(1)
  {
    hide Clean, DefaultLine, KeyAt, IsHeader, SchemaAt;
    DefaultLineReads(ks[t]);
    if ks[t].ManifestSchema? { DefaultSchemaReads(); }
  }

  /** A section that starts after `a` and is followed, `e` lines into `b`, by a header. */
  ghost predicate IsSectionAt(a: seq<string>, b: seq<string>, e: nat) {
    && a != [] && SectionPlanned(a[|a| - 1]) == Some("language")
    && (forall x :: 0 <= x < |a| - 1 ==> SectionPlanned(a[x]) != Some("language"))
    && e <= |b| && HasNoHeader(b[..e]) && (e < |b| ==> IsHeader(b[e]))
  }

  predicate SetWithin(k: LanguageKey, b: seq<string>, e: nat)
    requires e <= |b|
  {
    FirstWhere(KeyNamed(k.Name()), b, 0, e) < e
  }

  lemma SectionOf(a: seq<string>, ks: seq<LanguageKey>, b: seq<string>, e: nat)
    requires IsSectionAt(a, b, e)
    ensures var out := a + Inserted(ks) + b;
            LanguageStart(out) == |a| - 1 && SectionEnd(out, |a| - 1) == |a| + |ks| + e
  {
    hide Inserted, SectionPlanned, IsHeader;
    var ins := Inserted(ks);
    var out, n, end := a + ins + b, |a|, |a| + |ks| + e;
    assert |ins| == |ks| by { InsertedLength(ks); }
    assert forall x :: 0 <= x < n ==> out[x] == a[x];
    FirstWhereIs(SectionNamed("language"), out, 0, |out|, n - 1);
    forall x | n <= x < end ensures !AnyHeader.Holds(out[x]) {
      if x < n + |ks| {
        InsertedLine(ks, x - n);
        assert out[x] == ins[x - n];
      } else {
        assert out[x] == b[..e][x - n - |ks|];
      }
    }
    assert end < |out| ==> out[end] == b[e];
    FirstWhereIs(AnyHeader, out, n, |out|, end);
  }

  lemma InsertedLength(ks: seq<LanguageKey>)
    ensures |Inserted(ks)| == |ks|
  {}

  lemma HasKeyAfter(k: LanguageKey, a: seq<string>, ks: seq<LanguageKey>, b: seq<string>, e: nat)
    requires IsSectionAt(a, b, e) && (k in ks || SetWithin(k, b, e))
    ensures HasKey(k, a + Inserted(ks) + b, |a| - 1)
  {
    hide Inserted, SectionPlanned, IsHeader, KeyAt;
    var out := a + Inserted(ks) + b;
    SectionOf(a, ks, b, e);
    InsertedLength(ks);
    var x: nat;
    if k in ks {
      var t :| 0 <= t < |ks| && ks[t] == k;
      InsertedLine(ks, t);
      x := |a| + t;
      assert out[x] == Inserted(ks)[t];
    } else {
      var j := FirstWhere(KeyNamed(k.Name()), b, 0, e);
      assert KeyNamed(k.Name()).Holds(b[j]);
      x := |a| + |ks| + j;
      assert out[x] == b[j];
    }
    assert KeyNamed(k.Name()).Holds(out[x]);
  }

  lemma SchemaAfter(a: seq<string>, ks: seq<LanguageKey>, b: seq<string>, e: nat)
    requires IsSectionAt(a, b, e)
    requires ManifestSchema in ks
             || (SetWithin(ManifestSchema, b, e)
                 && SchemaAt(b[FirstWhere(KeyNamed(ManifestSchema.Name()), b, 0, e)]) == Some(1))
    ensures var out := a + Inserted(ks) + b;
            HasKey(ManifestSchema, out, |a| - 1) && SchemaAt(out[KeyIndex(ManifestSchema, out, |a| - 1)]) == Some(1)
  {
    hide Inserted, SectionPlanned, IsHeader, KeyAt, SchemaAt;
    var out, p := a + Inserted(ks) + b, KeyNamed(ManifestSchema.Name());
    SectionOf(a, ks, b, e);
    HasKeyAfter(ManifestSchema, a, ks, b, e);
    InsertedLength(ks);
    var j := KeyIndex(ManifestSchema, out, |a| - 1);
    assert p.Holds(out[j]);
    if j < |a| + |ks| {
      var t := j - |a|;
      InsertedLine(ks, t);
      assert out[j] == Inserted(ks)[t];
      NamesArePlain(ManifestSchema);
    } else {
      var first := FirstWhere(p, b, 0, e);
      NotInserted(a, ks, b, j);
      forall x | 0 <= x < j - |a| - |ks| ensures !p.Holds(b[x]) {
        assert out[|a| + |ks| + x] == b[x];
      }
      assert out[j] == b[j - |a| - |ks|];
      FirstWhereIs(p, b, 0, e, j - |a| - |ks|);
    }
  }

  lemma NotInserted(a: seq<string>, ks: seq<LanguageKey>, b: seq<string>, j: nat)
    requires |a| + |ks| <= j <= |a + Inserted(ks) + b|
    requires forall x :: |a| <= x < j ==> !KeyNamed(ManifestSchema.Name()).Holds((a + Inserted(ks) + b)[x])
    ensures ManifestSchema !in ks
  {
    hide Inserted, KeyAt;
    InsertedLength(ks);
    forall t | 0 <= t < |ks| ensures !ks[t].ManifestSchema? {
      InsertedLine(ks, t);
      assert (a + Inserted(ks) + b)[|a| + t] == Inserted(ks)[t];
    }
  }

  lemma CurrentAfterEdit(a: seq<string>, ks: seq<LanguageKey>, b: seq<string>, e: nat)
    requires IsSectionAt(a, b, e)
    requires forall k: LanguageKey :: k in ks || SetWithin(k, b, e)
    requires ManifestSchema in ks
             || (SetWithin(ManifestSchema, b, e)
                 && SchemaAt(b[FirstWhere(KeyNamed(ManifestSchema.Name()), b, 0, e)]) == Some(1))
    ensures IsCurrent(a + Inserted(ks) + b)
  {
    hide Inserted, SectionPlanned, IsHeader, KeyAt, SchemaAt, HasKey, KeyIndex, LanguageStart, SetWithin;
    SectionOf(a, ks, b, e);
    SchemaAfter(a, ks, b, e);
    var out, start := a + Inserted(ks) + b, |a| - 1;
    forall k: LanguageKey ensures HasKey(k, out, start) { HasKeyAfter(k, a, ks, b, e); }
  }

  // ---------- from lines to text ----------

  lemma CleanAllCons(line: string, lines: seq<string>)
    ensures CleanAll([line] + lines) == [Clean(line)] + CleanAll(lines)
  {
    hide Clean;
  }

  /** A line of a text reads as that line, with whatever the rest reads as. */
  lemma ReadsCons(line: string, rest: string)
    requires '\n' !in line
    ensures CleanAll(Lines(line + "\n" + rest)) == [Clean(line)] + CleanAll(Lines(rest))
  {
    hide Clean, Lines, CleanAll;
    LinesCons(line, rest);
    CleanAllCons(StripCr(line), Lines(rest));
    CleanIgnoresCr(line);
  }

  lemma {:induction false} LinesAppend(lines: seq<string>, rest: string)
    requires forall line :: line in lines ==> '\n' !in line
    ensures CleanAll(Lines(Unlines(lines) + rest)) == CleanAll(lines) + CleanAll(Lines(rest))
  {
    hide Clean, Lines;
    if lines == [] {
      assert "" + rest == rest;
    } else {
      var tail := Unlines(lines[1..]) + rest;
      LinesAppend(lines[1..], rest);
      ReadsCons(lines[0], tail);
      CleanAllCons(lines[0], lines[1..]);
      assert Unlines(lines) + rest == lines[0] + "\n" + tail;
      assert [lines[0]] + lines[1..] == lines;
    }
  }

  /** A missing line end at the end of a text does not change what is read. */
  lemma TrailingNewlineReads(s: string)
    requires s != ""
    ensures CleanAll(Lines(EnsureTrailingNewline(s))) == CleanAll(Lines(s))
  {
    hide Clean, Lines;
    if !EndsWith(s, '\n') {
      TrailingNewlineLines(s);
      CleanIgnoresCr(Lines(s)[|Lines(s)| - 1]);
    }
  }

  function LanguageHeader(): string { "[language]" }

  function AllKeys(): seq<LanguageKey> { [Version, Compatibility, ManifestSchema] }

  /** `language_section_header`. */
  function SectionText(): string {
    LanguageHeader() + "\n" + DefaultLine(Version) + "\n" + DefaultLine(Compatibility) + "\n"
      + DefaultLine(ManifestSchema) + "\n"
  }

  function Prepended(source: string): string { EnsureTrailingNewline(SectionText() + "\n" + source) }

  lemma SectionTextIsLines()
    ensures SectionText() + "\n" == Unlines([LanguageHeader()] + DefaultLines(AllKeys()) + [""])
  {
    hide DefaultLine, LanguageHeader, Unlines;
    var h, v, c, m := LanguageHeader(), DefaultLine(Version), DefaultLine(Compatibility), DefaultLine(ManifestSchema);
    FiveLines(h, v, c, m);
    assert [h] + DefaultLines(AllKeys()) + [""] == [h, v, c, m, ""];
  }

  lemma FiveLines(a: string, b: string, c: string, d: string)
    ensures Unlines([a, b, c, d, ""]) == a + "\n" + b + "\n" + c + "\n" + d + "\n" + "\n"
  {
    hide Unlines;
    TwoLines(d, "");
    UnlinesOf(c, [d, ""]);
    UnlinesOf(b, [c, d, ""]);
    UnlinesOf(a, [b, c, d, ""]);
    assert [c] + [d, ""] == [c, d, ""] && [b] + [c, d, ""] == [b, c, d, ""] && [a] + [b, c, d, ""] == [a, b, c, d, ""];
  }

  lemma TwoLines(a: string, b: string)
    ensures Unlines([a, b]) == a + "\n" + b + "\n"
  {
    assert [a, b][1..] == [b] && [b][1..] == [];
    assert Unlines([b]) == b + "\n";
  }

  lemma UnlinesOf(line: string, lines: seq<string>)
    ensures Unlines([line] + lines) == line + "\n" + Unlines(lines)
  {}

  lemma LettersAndBrackets()
    ensures !IsWhitespace('[') && !IsWhitespace(']') && !IsWhitespace('l') && !IsWhitespace('e')
  {}

  lemma HeaderReads()
    ensures Clean(LanguageHeader()) == LanguageHeader() && Clean("") == ""
    ensures SectionPlanned(LanguageHeader()) == Some("language") && IsHeader(LanguageHeader())
    ensures '\n' !in LanguageHeader()
  {
    hide *;
    HeaderIsClean();
    HeaderIsPlanned();
    HeaderIsOneLine();
  }

  lemma HeaderIsClean()
    ensures Clean(LanguageHeader()) == LanguageHeader() && Clean("") == ""
  {
    hide Trim, IsWhitespace;
    LettersAndBrackets();
    TrimIdempotent(LanguageHeader());
    TrimIdempotent("");
  }

  lemma HeaderIsPlanned()
    ensures SectionPlanned(LanguageHeader()) == Some("language") && IsHeader(LanguageHeader())
  {
    hide Trim, IsWhitespace;
    LettersAndBrackets();
    TrimIdempotent("language");
    assert LanguageHeader()[1..|LanguageHeader()| - 1] == "language";
  }

  lemma HeaderIsOneLine()
    ensures '\n' !in LanguageHeader()
  {}

  lemma HeaderMeaning(k: LanguageKey)
    ensures var a := [LanguageHeader()];
            EndSection("", a) == "language" && Settings("", a) == [] && Last(k, "", a) == None
  {
    hide LanguageHeader, IsHeader, SectionRead;
    var line := LanguageHeader();
    HeaderReads();
    PlannedIsRead(line);
    ReadOne(k, "", line);
    EndSectionLast("", [line]);
  }

  lemma PrependReads(source: string)
    ensures CleanAll(Lines(Prepended(source))) ==
            [LanguageHeader()] + Inserted(AllKeys()) + ([""] + CleanAll(Lines(source)))
    ensures EndsWith(Prepended(source), '\n')
  {
    hide Clean, CleanAll, Lines, LanguageHeader, DefaultLine, Unlines, SectionText;
    var lines := [LanguageHeader()] + DefaultLines(AllKeys()) + [""];
    HeaderReads();
    SectionTextIsLines();
    forall line | line in lines ensures '\n' !in line {
      forall k: LanguageKey ensures '\n' !in DefaultLine(k) { DefaultLineReads(k); }
    }
    LinesAppend(lines, source);
    SectionTextIsText();
    TrailingNewlineReads(SectionText() + "\n" + source);
    CleanAllOfSection();
  }

  lemma SectionTextIsText()
    ensures SectionText() != ""
  {}

  lemma CleanAllOfSection()
    ensures CleanAll([LanguageHeader()] + DefaultLines(AllKeys()) + [""]) ==
            [LanguageHeader()] + Inserted(AllKeys()) + [""]
  {
    hide Clean, LanguageHeader, DefaultLine;
    HeaderReads();
  }

  /** A manifest without the section gets one, in front of everything. */
  lemma PrependIsPlanned(source: string)
    requires var lines := CleanAll(Lines(source)); LanguageStart(lines) == |lines|
    ensures IsPlanned(source, Prepended(source))
  {
    hide Clean, CleanAll, Lines, LanguageHeader, Inserted, Settings, Last, Default, IsKept, IsHeader, SectionPlanned,
      Prepended;
    var lines := CleanAll(Lines(source));
    PrependReads(source);
    HeaderReads();
    var a, b, ks := [LanguageHeader()], [""] + lines, AllKeys();
    forall k: LanguageKey
      ensures k in ks && OrDefault(k, Last(k, "", a + Inserted(ks) + b)) == OrDefault(k, Last(k, "", lines)) <==>
              IsKept(k, lines)
      ensures Settings("", a + Inserted(ks) + b) == Settings("", lines)
    {
      EveryKey(k);
      HeaderMeaning(k);
      PrependKeeps(k, lines, a, ks);
    }
    var e := PrependedSection(lines);
    forall k: LanguageKey ensures k in ks { EveryKey(k); }
    CurrentAfterEdit(a, ks, b, e);
    NotOutdated(lines);
  }

  lemma PrependedSection(lines: seq<string>) returns (e: nat)
    ensures IsSectionAt([LanguageHeader()], [""] + lines, e)
  {
    hide IsHeader, SectionPlanned, LanguageHeader;
    var b := [""] + lines;
    e := 1 + FirstWhere(AnyHeader, lines, 0, |lines|);
    HeaderReads();
    BlankReadsNothing(Version);
    forall x | 0 <= x < e ensures !IsHeader(b[..e][x]) {
      if x > 0 { assert b[..e][x] == lines[x - 1] && !AnyHeader.Holds(lines[x - 1]); }
    }
    assert e < |b| ==> b[e] == lines[e - 1] && AnyHeader.Holds(lines[e - 1]);
  }

  lemma EveryKey(k: LanguageKey)
    ensures k in AllKeys()
  {}

  lemma NotOutdated(lines: seq<string>)
    requires LanguageStart(lines) == |lines|
    ensures !IsOutdated(lines) && !IsUpgraded(lines)
  {}

  /** What a plan guarantees about its output: it asks for nothing more, all other settings
      read the same, and so do the language keys it keeps. */
  ghost predicate IsPlanned(source: string, planned: string) {
    var lines := CleanAll(Lines(source));
    && IsCurrent(CleanAll(Lines(planned))) && EndsWith(planned, '\n')
    && SettingsOf(planned) == SettingsOf(source)
    && (forall k: LanguageKey :: Effective(k, planned) == Effective(k, source) <==> IsKept(k, lines))
    && (IsUpgraded(lines) ==>
          Effective(ManifestSchema, source) == Number(0) && Effective(ManifestSchema, planned) == Number(1))
  }

  // ---------- editing the section there is ----------

  /** Positions counted from the line after the header. */
  lemma KeyIndexFrom(k: LanguageKey, lines: seq<string>)
    requires LanguageStart(lines) < |lines|
    ensures var start := LanguageStart(lines);
            var b, e := lines[start + 1..], SectionEnd(lines, start) - start - 1;
            FirstWhere(KeyNamed(k.Name()), b, 0, e) == KeyIndex(k, lines, start) - start - 1
  {
    hide KeyAt, IsHeader, SectionPlanned;
    var start := LanguageStart(lines);
    var b, e := lines[start + 1..], SectionEnd(lines, start) - start - 1;
    var p, j := KeyNamed(k.Name()), KeyIndex(k, lines, start);
    forall x | 0 <= x < j - start - 1 ensures !p.Holds(b[x]) {
      assert b[x] == lines[start + 1 + x];
    }
    FirstWhereIs(p, b, 0, e, j - start - 1);
  }

  /** The edited lines one by one. */
  lemma UpgradedLine(lines: seq<string>, x: nat)
    requires LanguageStart(lines) + 1 + x < |lines|
    ensures var start := LanguageStart(lines);
            var line := lines[start + 1 + x];
            && |Upgraded(lines)| == |lines| - start - 1
            && Upgraded(lines)[x] ==
               if IsOutdated(lines) && start + 1 + x == KeyIndex(ManifestSchema, lines, start)
               then Clean(DefaultLine(ManifestSchema)) else line
  {
    hide Clean, DefaultLine, LanguageStart, SchemaAt;
  }

  lemma UpgradedLength(lines: seq<string>)
    requires LanguageStart(lines) < |lines|
    ensures |Upgraded(lines)| == |lines| - LanguageStart(lines) - 1
  {
    hide Clean, DefaultLine, LanguageStart, SchemaAt;
  }

  /** The lines after the header, edited, still form the section. */
  lemma UpgradedSection(lines: seq<string>)
    requires LanguageStart(lines) < |lines|
    ensures var start := LanguageStart(lines);
            IsSectionAt(lines[..start + 1], Upgraded(lines), SectionEnd(lines, start) - start - 1)
  {
    hide KeyAt, IsHeader, SectionPlanned, Clean, DefaultLine, SchemaAt, Upgraded;
    var start := LanguageStart(lines);
    var a, b1, e := lines[..start + 1], Upgraded(lines), SectionEnd(lines, start) - start - 1;
    assert SectionNamed("language").Holds(lines[start]);
    forall x | 0 <= x < start ensures SectionPlanned(a[x]) != Some("language") {
      assert !SectionNamed("language").Holds(lines[x]);
    }
    DefaultLineReads(ManifestSchema);
    UpgradedLength(lines);
    forall x | 0 <= x < e ensures !IsHeader(b1[..e][x]) {
      UpgradedLine(lines, x);
      assert !AnyHeader.Holds(lines[start + 1 + x]);
    }
    if e < |b1| {
      UpgradedLine(lines, e);
      assert AnyHeader.Holds(lines[start + 1 + e]);
    }
  }

  lemma EndBounds(lines: seq<string>, start: nat)
    requires start < |lines|
    ensures start < SectionEnd(lines, start) <= |lines|
  {}

  lemma SetInUpgraded(k: LanguageKey, lines: seq<string>)
    requires LanguageStart(lines) < |lines| && HasKey(k, lines, LanguageStart(lines))
    ensures var e := SectionEnd(lines, LanguageStart(lines)) - LanguageStart(lines) - 1;
            e <= |Upgraded(lines)| && SetWithin(k, Upgraded(lines), e)
  {
    hide KeyAt, IsHeader, SectionPlanned, Clean, DefaultLine, SchemaAt, LanguageStart, SectionEnd, KeyIndex;
    var start := LanguageStart(lines);
    var b, b1, e := lines[start + 1..], Upgraded(lines), SectionEnd(lines, start) - start - 1;
    EndBounds(lines, start);
    KeyIndexFrom(k, lines);
    var j := FirstWhere(KeyNamed(k.Name()), b, 0, e);
    assert KeyNamed(k.Name()).Holds(b[j]);
    if IsOutdated(lines) {
      SchemaLine(lines);
      DefaultLineReads(ManifestSchema);
      NamesArePlain(k);
    }
    assert KeyNamed(k.Name()).Holds(b1[j]);
  }

  lemma SchemaInUpgraded(lines: seq<string>)
    requires LanguageStart(lines) < |lines| && HasKey(ManifestSchema, lines, LanguageStart(lines)) && !IsRefused(lines)
    ensures var e := SectionEnd(lines, LanguageStart(lines)) - LanguageStart(lines) - 1;
            var b1 := Upgraded(lines);
            && e <= |b1| && SetWithin(ManifestSchema, b1, e)
            && SchemaAt(b1[FirstWhere(KeyNamed(ManifestSchema.Name()), b1, 0, e)]) == Some(1)
  {
    hide KeyAt, IsHeader, SectionPlanned, Clean, DefaultLine, SchemaAt, LanguageStart, SectionEnd, KeyIndex, Upgraded;
    var start, p := LanguageStart(lines), KeyNamed(ManifestSchema.Name());
    var b, b1, e := lines[start + 1..], Upgraded(lines), SectionEnd(lines, start) - start - 1;
    EndBounds(lines, start);
    SetInUpgraded(ManifestSchema, lines);
    KeyIndexFrom(ManifestSchema, lines);
    UpgradedLength(lines);
    var j := FirstWhere(p, b, 0, e);
    assert p.Holds(b[j]);
    UpgradedLine(lines, j);
    DefaultLineReads(ManifestSchema);
    DefaultSchemaReads();
    forall x | 0 <= x < j ensures !p.Holds(b1[x]) {
      UpgradedLine(lines, x);
      assert !p.Holds(b[x]);
    }
    FirstWhereIs(p, b1, 0, e, j);
  }

  lemma EditIsCurrent(lines: seq<string>, ks: seq<LanguageKey>)
    requires LanguageStart(lines) < |lines| && !IsRefused(lines)
    requires forall k: LanguageKey :: k in ks <==> !HasKey(k, lines, LanguageStart(lines))
    ensures IsCurrent(lines[..LanguageStart(lines) + 1] + Inserted(ks) + Upgraded(lines))
  {
    hide LanguageStart, SectionEnd, HasKey, KeyIndex, IsSectionAt, SetWithin, Inserted, Upgraded, IsRefused, IsCurrent,
      SchemaAt;
    UpgradedSection(lines);
    var start := LanguageStart(lines);
    EndBounds(lines, start);
    var a, b1, e := lines[..start + 1], Upgraded(lines), SectionEnd(lines, start) - start - 1;
    SectionBounds(a, b1, e);
    forall k: LanguageKey ensures k in ks || SetWithin(k, b1, e) {
      if k !in ks { SetInUpgraded(k, lines); }
    }
    if ManifestSchema !in ks { SchemaInUpgraded(lines); }
    CurrentAfterEdit(a, ks, b1, e);
  }

  lemma SectionBounds(a: seq<string>, b: seq<string>, e: nat)
    requires IsSectionAt(a, b, e)
    ensures e <= |b|
  {}

  /** The planned text of edited lines. */
  lemma EditIsPlanned(source: string, ks: seq<LanguageKey>, edited: seq<string>)
    requires var lines := CleanAll(Lines(source));
             && LanguageStart(lines) < |lines| && !IsRefused(lines)
             && (forall k: LanguageKey :: k in ks <==> !HasKey(k, lines, LanguageStart(lines)))
             && edited != [] && (forall line :: line in edited ==> '\n' !in line)
             && CleanAll(edited) == lines[..LanguageStart(lines) + 1] + Inserted(ks) + Upgraded(lines)
    ensures IsPlanned(source, Unlines(edited))
  {
    hide Clean, CleanAll, Lines, Inserted, Settings, Last, Default, IsKept, IsHeader, SectionPlanned, Unlines,
      IsRefused, IsUpgraded;
    hide LanguageStart, HasKey, Upgraded, IsCurrent;
    var lines := CleanAll(Lines(source));
    UnlinesRead(edited);
    forall k: LanguageKey
      ensures OrDefault(k, Last(k, "", CleanAll(edited))) == OrDefault(k, Last(k, "", lines)) <==> IsKept(k, lines)
      ensures Settings("", CleanAll(edited)) == Settings("", lines)
      ensures k.ManifestSchema? && IsUpgraded(lines) ==>
                OrDefault(k, Last(k, "", lines)) == Number(0)
                  && OrDefault(k, Last(k, "", CleanAll(edited))) == Number(1)
    {
      EditKeeps(k, lines, ks, Upgraded(lines));
    }
    EditKeeps(ManifestSchema, lines, ks, Upgraded(lines));
    EditIsCurrent(lines, ks);
  }

  lemma UnlinesRead(lines: seq<string>)
    requires lines != [] && forall line :: line in lines ==> '\n' !in line
    ensures CleanAll(Lines(Unlines(lines))) == CleanAll(lines) && EndsWith(Unlines(lines), '\n')
  {
    hide Clean, Lines;
    LinesOfUnlines(lines);
    JoinIsUnlines(lines);
  }

  lemma CurrentIsPlanned(source: string)
    requires IsCurrent(CleanAll(Lines(source)))
    ensures IsPlanned(source, EnsureTrailingNewline(source))
  {
    hide Clean, CleanAll, Lines, Last, Settings, SchemaAt, LanguageStart, HasKey, KeyIndex, Default;
    var lines := CleanAll(Lines(source));
    var start := LanguageStart(lines);
    NoLinesInNothing();
    TrailingNewlineReads(source);
    SectionParts(lines, start);
    forall k: LanguageKey ensures IsKept(k, lines) { assert HasKey(k, lines, start); }
  }

  lemma NoLinesInNothing()
    ensures CleanAll(Lines("")) == []
  {}

  // ---------- the planner ----------

  /** The raw lines after the edit. */
  function EditedLines(lines: seq<string>, start: nat, ks: seq<LanguageKey>): seq<string>
    requires start < |lines|
  {
    lines[..start + 1] + DefaultLines(ks) + lines[start + 1..]
  }

  lemma EditedLinesRead(lines: seq<string>, start: nat, ks: seq<LanguageKey>)
    requires start < |lines| && forall line :: line in lines ==> '\n' !in line
    ensures var cl := CleanAll(lines);
            CleanAll(EditedLines(lines, start, ks)) == cl[..start + 1] + Inserted(ks) + cl[start + 1..]
    ensures forall line :: line in EditedLines(lines, start, ks) ==> '\n' !in line
  {
    hide Clean, DefaultLine;
    forall line | line in EditedLines(lines, start, ks) ensures '\n' !in line {
      if line in DefaultLines(ks) {
        var t :| 0 <= t < |ks| && line == DefaultLine(ks[t]);
        DefaultLineReads(ks[t]);
      } else {
        assert line in lines;
      }
    }
  }

  lemma CleanAllUpdate(lines: seq<string>, i: nat, line: string)
    requires i < |lines|
    ensures CleanAll(lines[i := line]) == CleanAll(lines)[i := Clean(line)]
  {
    hide Clean;
  }

  lemma UpdateBehind(lines: seq<string>, at: nat, i: nat, line: string)
    requires at <= i < |lines|
    ensures lines[i := line] == lines[..at] + lines[at..][i - at := line]
  {}

  lemma Halves(a: seq<string>, b: seq<string>, lines: seq<string>)
    requires lines == a + b
    ensures lines[..|a|] == a && lines[|a|..] == b
  {}

  /** The schema line, checked and brought up to date. */
  method UpdateSchema(source: string, lines: seq<string>, at: nat) returns (r: Result<(seq<string>, bool), PlanError>)
    requires lines == Lines(source)
    requires var cl := CleanAll(lines); LanguageStart(cl) < |cl| && HasKey(ManifestSchema, cl, LanguageStart(cl))
                                        && at == KeyIndex(ManifestSchema, cl, LanguageStart(cl))
    ensures r.Err? <==> IsRefused(CleanAll(lines))
    ensures r.Ok? ==> IsUpdated(lines, r.value.0) && (r.value.1 <==> IsOutdated(CleanAll(lines)))
    ensures at < |lines|
    ensures r.Ok? ==> r.value.0 == if r.value.1 then lines[at := DefaultLine(ManifestSchema)] else lines
  {
    hide Clean, Lines, CleanAll, DefaultLine, SchemaAt, ManifestSchemaValue, IsUpdated, IsRefused, IsOutdated,
      LanguageStart, HasKey, KeyIndex;
    ghost var cl := CleanAll(lines);
    KeyBounds(ManifestSchema, cl, LanguageStart(cl));
    CleanAllLength(lines);
    var schema := ManifestSchemaValue(lines[at]);
    ManifestSchemaValueIsClean(lines[at]);
    SchemaDecides(cl);
    if schema.None? {
      return Err(InvalidSchema);
    }
    if schema.value > CURRENT_SCHEMA {
      return Err(FutureSchema(schema.value));
    }
    if schema.value == 0 {
      DefaultIsUpdate(source, lines, at);
      return Ok((lines[at := DefaultLine(ManifestSchema)], true));
    }
    NothingToUpdate(source, lines);
    return Ok((lines, false));
  }

  lemma SchemaDecides(lines: seq<string>)
    requires LanguageStart(lines) < |lines| && HasKey(ManifestSchema, lines, LanguageStart(lines))
    ensures KeyIndex(ManifestSchema, lines, LanguageStart(lines)) < |lines|
    ensures var schema := SchemaAt(lines[KeyIndex(ManifestSchema, lines, LanguageStart(lines))]);
            && (IsRefused(lines) <==> schema.None? || schema.value > CURRENT_SCHEMA)
            && (IsOutdated(lines) <==> schema == Some(0))
  {
    hide SchemaAt, LanguageStart;
  }

  lemma DefaultIsUpdate(source: string, lines: seq<string>, at: nat)
    requires lines == Lines(source) && IsOutdated(CleanAll(lines))
    requires at == KeyIndex(ManifestSchema, CleanAll(lines), LanguageStart(CleanAll(lines)))
    ensures at < |lines| && IsUpdated(lines, lines[at := DefaultLine(ManifestSchema)])
  {
    hide *;
    OutdatedMeans(CleanAll(lines));
    CleanAllLength(lines);
    LinesAreSingle(source);
    DefaultReads(lines, at);
    DefaultLineReads(ManifestSchema);
    StaysOneLine(lines, at, DefaultLine(ManifestSchema));
    MakeUpdated(lines, lines[at := DefaultLine(ManifestSchema)]);
  }

  lemma MakeUpdated(lines: seq<string>, updated: seq<string>)
    requires var cl := CleanAll(lines);
             && LanguageStart(cl) < |cl| && |updated| == |lines| && AllSingle(updated)
             && CleanAll(updated) == cl[..LanguageStart(cl) + 1] + Upgraded(cl)
    ensures IsUpdated(lines, updated)
  {
    hide CleanAll, LanguageStart, Upgraded, AllSingle;
  }

  lemma DefaultReads(lines: seq<string>, at: nat)
    requires IsOutdated(CleanAll(lines)) && at < |lines|
    requires at == KeyIndex(ManifestSchema, CleanAll(lines), LanguageStart(CleanAll(lines)))
    ensures var cl := CleanAll(lines);
            CleanAll(lines[at := DefaultLine(ManifestSchema)]) == cl[..LanguageStart(cl) + 1] + Upgraded(cl)
  {
    hide Clean, CleanAll, DefaultLine, LanguageStart, KeyIndex, IsOutdated, Upgraded;
    var cl := CleanAll(lines);
    OutdatedMeans(cl);
    CleanAllUpdate(lines, at, DefaultLine(ManifestSchema));
    UpdateBehind(cl, LanguageStart(cl) + 1, at, Clean(DefaultLine(ManifestSchema)));
  }

  lemma OutdatedMeans(lines: seq<string>)
    requires IsOutdated(lines)
    ensures var start := LanguageStart(lines);
            var at := KeyIndex(ManifestSchema, lines, start);
            && start < at < |lines|
            && Upgraded(lines) == lines[start + 1..][at - start - 1 := Clean(DefaultLine(ManifestSchema))]
  {
    hide Clean, DefaultLine, LanguageStart, SchemaAt;
  }

  lemma StaysOneLine(lines: seq<string>, i: nat, line: string)
    requires i < |lines| && '\n' !in line && AllSingle(lines)
    ensures AllSingle(lines[i := line])
  {}

  lemma KeyBounds(k: LanguageKey, lines: seq<string>, start: nat)
    requires start < |lines| && HasKey(k, lines, start)
    ensures start < KeyIndex(k, lines, start) < |lines|
  {}

  ghost predicate AllSingle(lines: seq<string>) { forall line :: line in lines ==> '\n' !in line }

  lemma LinesAreSingle(source: string)
    ensures AllSingle(Lines(source))
  {
    hide Lines;
  }

  /** The lines with the schema brought up to date. */
  ghost predicate IsUpdated(lines: seq<string>, updated: seq<string>) {
    var cl := CleanAll(lines);
    var start := LanguageStart(cl);
    && start < |cl| && |updated| == |lines| && AllSingle(updated)
    && CleanAll(updated) == cl[..start + 1] + Upgraded(cl)
  }

  lemma NothingToUpdate(source: string, lines: seq<string>)
    requires lines == Lines(source) && LanguageStart(CleanAll(lines)) < |CleanAll(lines)|
             && !IsOutdated(CleanAll(lines))
    ensures IsUpdated(lines, lines)
  {
    hide Clean, Lines, CleanAll, LanguageStart, IsOutdated, AllSingle;
    LinesAreSingle(source);
    CleanAllLength(lines);
    var cl, at := CleanAll(lines), LanguageStart(CleanAll(lines)) + 1;
    assert cl == cl[..at] + cl[at..];
  }

  lemma NoSchemaKey(lines: seq<string>)
    requires LanguageStart(lines) < |lines| && !HasKey(ManifestSchema, lines, LanguageStart(lines))
    ensures !IsOutdated(lines) && !IsRefused(lines)
  {}

  /** Putting the defaults into updated lines is the planned edit. */
  lemma EditOfUpdated(source: string, updated: seq<string>, ks: seq<LanguageKey>)
    requires var cl := CleanAll(Lines(source));
             && IsUpdated(Lines(source), updated) && !IsRefused(cl)
             && (forall k: LanguageKey :: k in ks <==> !HasKey(k, cl, LanguageStart(cl)))
    ensures LanguageStart(CleanAll(Lines(source))) < |updated|
    ensures var edited := EditedLines(updated, LanguageStart(CleanAll(Lines(source))), ks);
            edited != [] && IsPlanned(source, Unlines(edited))
  {
    hide Clean, CleanAll, Lines, DefaultLine, LanguageStart, HasKey, Inserted, IsPlanned, Unlines, Upgraded, IsRefused;
    CleanAllLength(updated);
    CleanAllLength(Lines(source));
    var start := LanguageStart(CleanAll(Lines(source)));
    Halves(CleanAll(Lines(source))[..start + 1], Upgraded(CleanAll(Lines(source))), CleanAll(updated));
    EditedLinesRead(updated, start, ks);
    EditIsPlanned(source, ks, EditedLines(updated, start, ks));
  }

  /** The reported actions are exactly the edits the section needs. */
  ghost predicate ReportsEdits(lines: seq<string>, actions: seq<Action>) {
    var start := LanguageStart(lines);
    && (InsertSection in actions <==> start == |lines|)
    && (forall k: LanguageKey :: AddKey(k) in actions <==> start < |lines| && !HasKey(k, lines, start))
    && (UpgradeSchema in actions <==> IsOutdated(lines))
  }

  // ---------- the text itself ----------

  const VERSION_LINE := "version = \"0.4.25\""
  const COMPATIBILITY_LINE := "compatibility = \"minor\""
  const SCHEMA_LINE := "manifest_schema = 1"

  /** The lines that the actions add. */
  function Added(actions: seq<Action>): seq<string> {
    (if AddKey(Version) in actions then [VERSION_LINE] else [])
    + (if AddKey(Compatibility) in actions then [COMPATIBILITY_LINE] else [])
    + (if AddKey(ManifestSchema) in actions then [SCHEMA_LINE] else [])
  }

  /** The old lines, character by character: what is added stands right under the first
      `[language]` header, and the one line that may have changed declared schema 0. */
  ghost predicate IsSpliced(before: seq<string>, after: seq<string>, actions: seq<Action>, start: nat, at: nat) {
    && start < |before| && SectionPlanned(Clean(before[start])) == Some("language")
    && (forall x :: 0 <= x < start ==> SectionPlanned(Clean(before[x])) != Some("language"))
    && if UpgradeSchema in actions then
         && start < at < |before| && KeyAt(Clean(before[at])) == Some("manifest_schema")
         && SchemaAt(Clean(before[at])) == Some(0)
         && after == before[..start + 1] + Added(actions) + before[start + 1..at] + [SCHEMA_LINE] + before[at + 1..]
       else after == before[..start + 1] + Added(actions) + before[start + 1..]
  }

  /** Nothing of the text is lost, comments and indentation included. */
  ghost predicate KeepsText(source: string, plan: Plan) {
    if plan.actions == [] then plan.source == EnsureTrailingNewline(source)
    else if InsertSection in plan.actions then
      plan.source == EnsureTrailingNewline(
        "[language]" + "\n" + VERSION_LINE + "\n" + COMPATIBILITY_LINE + "\n" + SCHEMA_LINE + "\n" + "\n" + source)
    else
      exists start, at, after ::
        IsSpliced(Lines(source), after, plan.actions, start, at) && plan.source == Unlines(after)
  }

  lemma DefaultTexts()
    ensures DefaultLine(Version) == VERSION_LINE && DefaultLine(Compatibility) == COMPATIBILITY_LINE
    ensures DefaultLine(ManifestSchema) == SCHEMA_LINE
  {}

  lemma PrependKeepsText(source: string)
    ensures KeepsText(source, Plan(Prepended(source), true, [InsertSection]))
  {
    hide DefaultLine, EnsureTrailingNewline;
    DefaultTexts();
  }

  lemma NoActionKeepsText(source: string)
    ensures KeepsText(source, Plan(EnsureTrailingNewline(source), false, []))
  {}

  lemma SectionIsPlanned(lines: seq<string>, start: nat)
    requires start == LanguageStart(lines) < |lines|
    ensures SectionPlanned(lines[start]) == Some("language")
    ensures forall x :: 0 <= x < start ==> SectionPlanned(lines[x]) != Some("language")
  {
    hide SectionPlanned;
    var p := SectionNamed("language");
    assert p.Holds(lines[start]) && forall x :: 0 <= x < start ==> !p.Holds(lines[x]);
  }

  lemma SpliceKeepsText(source: string, start: nat, at: nat, lines: seq<string>, ks: seq<LanguageKey>,
                        actions: seq<Action>)
    requires var cl := CleanAll(Lines(source));
             && start == LanguageStart(cl) < |cl| && SectionPlanned(cl[start]) == Some("language")
             && (forall x :: 0 <= x < start ==> SectionPlanned(cl[x]) != Some("language"))
             && (UpgradeSchema in actions <==> IsOutdated(cl))
             && (IsOutdated(cl) ==> at == KeyIndex(ManifestSchema, cl, start) < |Lines(source)|)
             && lines == if IsOutdated(cl) then Lines(source)[at := DefaultLine(ManifestSchema)] else Lines(source)
    requires start < |lines| && actions != [] && InsertSection !in actions && DefaultLines(ks) == Added(actions)
    ensures KeepsText(source, Plan(Unlines(EditedLines(lines, start, ks)), true, actions))
  {
    hide Clean, Lines, Unlines, Added, SectionPlanned, KeyAt, SchemaAt, LanguageStart, DefaultLine;
    var before, after := Lines(source), EditedLines(lines, start, ks);
    DefaultTexts();
    CleanAllLength(before);
    if UpgradeSchema in actions {
      OutdatedMeans(CleanAll(before));
      OutdatedLine(CleanAll(before));
      assert lines[start + 1..] == before[start + 1..at] + [SCHEMA_LINE] + before[at + 1..];
      assert lines[..start + 1] == before[..start + 1];
      assert after == before[..start + 1] + Added(actions) + before[start + 1..at] + [SCHEMA_LINE] + before[at + 1..];
    }
    assert IsSpliced(before, after, actions, start, at);
  }

  lemma OutdatedLine(lines: seq<string>)
    requires IsOutdated(lines)
    ensures var start := LanguageStart(lines);
            && start < |lines|
            && var at := KeyIndex(ManifestSchema, lines, start);
            && at < |lines| && KeyAt(lines[at]) == Some("manifest_schema") && SchemaAt(lines[at]) == Some(0)
  {
    hide LanguageStart, SchemaAt, KeyAt;
    var start := LanguageStart(lines);
    assert KeyNamed("manifest_schema").Holds(lines[KeyIndex(ManifestSchema, lines, start)]);
  }

  lemma AddedLines(v: bool, c: bool, m: bool, ks: seq<LanguageKey>, actions: seq<Action>)
    requires ks == (if v then [Version] else []) + (if c then [Compatibility] else [])
             + (if m then [ManifestSchema] else [])
    requires (AddKey(Version) in actions <==> v) && (AddKey(Compatibility) in actions <==> c)
    requires AddKey(ManifestSchema) in actions <==> m
    ensures DefaultLines(ks) == Added(actions)
  {
    hide DefaultLine;
    DefaultTexts();
  }

  /** `plan_manifest_source`. */
  method PlanManifestSource(source: string) returns (r: Result<Plan, PlanError>)
    ensures r.Err? <==> IsRefused(CleanAll(Lines(source)))
    ensures r.Ok? ==> IsPlanned(source, r.value.source) && ReportsEdits(CleanAll(Lines(source)), r.value.actions)
    ensures r.Ok? ==> (r.value.actions == [] <==> IsCurrent(CleanAll(Lines(source))))
    ensures r.Ok? ==> (r.value.changed <==> r.value.actions != [])
    ensures r.Ok? && r.value.actions == [] ==> r.value.source == EnsureTrailingNewline(source)
    ensures r.Ok? ==> KeepsText(source, r.value)
  {
    hide Clean, Lines, CleanAll, FirstWhere, IsPlanned, IsCurrent, IsRefused, Prepended, ReportsEdits, KeepsText;
    ghost var cl := CleanAll(Lines(source));
    var found := FindSection(source, "language");
    if found.None? {
      PrependIsPlanned(source);
      NoSection(cl);
      PrependKeepsText(source);
      return Ok(Plan(Prepended(source), true, [InsertSection]));
    }
    r := PlanSection(source, found.value.0, found.value.1);
  }

  /** The part that edits the section there is. */
  method PlanSection(source: string, start: nat, end: nat) returns (r: Result<Plan, PlanError>)
    requires var cl := CleanAll(Lines(source)); start == LanguageStart(cl) < |cl| && end == SectionEnd(cl, start)
    ensures r.Err? <==> IsRefused(CleanAll(Lines(source)))
    ensures r.Ok? ==> IsPlanned(source, r.value.source) && ReportsEdits(CleanAll(Lines(source)), r.value.actions)
    ensures r.Ok? ==> (r.value.actions == [] <==> IsCurrent(CleanAll(Lines(source))))
    ensures r.Ok? ==> (r.value.changed <==> r.value.actions != [])
    ensures r.Ok? && r.value.actions == [] ==> r.value.source == EnsureTrailingNewline(source)
    ensures r.Ok? ==> KeepsText(source, r.value)
  {
    hide *;
    ghost var cl := CleanAll(Lines(source));
    var lines := Lines(source);
    EndBounds(cl, start);
    CleanAllLength(lines);
    var keys := SectionKeys(lines, start + 1, end);
    FoundKeys(keys, cl, start);
    var ks := MissingTexts(keys);
    var at := FindKey(keys, ManifestSchema.Name());
    var upgrade := false;
    if at.Some? {
      var updated := UpdateSchema(source, lines, at.value);
      if updated.Err? {
        return Err(updated.error);
      }
      lines, upgrade := updated.value.0, updated.value.1;
    } else {
      NoSchemaKey(cl);
      NothingToUpdate(source, lines);
      OneMoreKey(ks);
      ks := ks + [ManifestSchema];
    }
    var actions := Actions(ks, upgrade);
    AllMissing(cl, start, ks);
    NeedsNoEdit(cl);
    ActionsAre(ks, upgrade);
    MakeReport(cl, start, ks, actions);
    if actions == [] {
      CurrentIsPlanned(source);
      NoActionKeepsText(source);
      return Ok(Plan(EnsureTrailingNewline(source), false, []));
    }
    SectionIsEdited(source, start, if at.Some? then at.value else 0, lines, ks, actions);
    lines := EditedLines(lines, start, ks);
    JoinIsUnlines(lines);
    return Ok(Plan(Join(lines) + "\n", true, actions));
  }

  /** The edited text is the planned one. */
  lemma SectionIsEdited(source: string, start: nat, at: nat, lines: seq<string>, ks: seq<LanguageKey>,
                        actions: seq<Action>)
    requires var cl := CleanAll(Lines(source));
             && start == LanguageStart(cl) < |cl| && !IsRefused(cl) && IsUpdated(Lines(source), lines)
             && (forall k: LanguageKey :: k in ks <==> !HasKey(k, cl, start))
             && (IsOutdated(cl) ==> at == KeyIndex(ManifestSchema, cl, start) < |Lines(source)|)
             && ReportsEdits(cl, actions)
             && lines == if IsOutdated(cl) then Lines(source)[at := DefaultLine(ManifestSchema)] else Lines(source)
    requires actions != [] && IsInOrder(ks)
    ensures start < |lines|
    ensures var edited := EditedLines(lines, start, ks);
            && edited != [] && IsPlanned(source, Unlines(edited))
            && KeepsText(source, Plan(Unlines(edited), true, actions))
  {
    hide *;
    EditOfUpdated(source, lines, ks);
    SectionIsPlanned(CleanAll(Lines(source)), start);
    Reported(CleanAll(Lines(source)), ks, actions);
    SpliceKeepsText(source, start, at, lines, ks, actions);
  }

  predicate IsInOrder(ks: seq<LanguageKey>) {
    ks == (if Version in ks then [Version] else []) + (if Compatibility in ks then [Compatibility] else [])
          + (if ManifestSchema in ks then [ManifestSchema] else [])
  }

  lemma Reported(lines: seq<string>, ks: seq<LanguageKey>, actions: seq<Action>)
    requires ReportsEdits(lines, actions) && LanguageStart(lines) < |lines| && IsInOrder(ks)
    requires forall k: LanguageKey :: k in ks <==> !HasKey(k, lines, LanguageStart(lines))
    ensures InsertSection !in actions && (UpgradeSchema in actions <==> IsOutdated(lines))
    ensures DefaultLines(ks) == Added(actions)
  {
    hide HasKey, IsOutdated, LanguageStart, Added, DefaultLines;
    AddedLines(Version in ks, Compatibility in ks, ManifestSchema in ks, ks, actions);
  }

  /** The text keys that the section lacks. */
  method MissingTexts(keys: seq<(string, nat)>) returns (ks: seq<LanguageKey>)
    ensures (Version in ks <==> FindKey(keys, Version.Name()).None?) && ManifestSchema !in ks && IsInOrder(ks)
    ensures Compatibility in ks <==> FindKey(keys, Compatibility.Name()).None?
  {
    ks := [];
    if FindKey(keys, Version.Name()).None? {
      ks := ks + [Version];
    }
    if FindKey(keys, Compatibility.Name()).None? {
      ks := ks + [Compatibility];
    }
  }

  lemma OneMoreKey(ks: seq<LanguageKey>)
    requires IsInOrder(ks) && ManifestSchema !in ks
    ensures IsInOrder(ks + [ManifestSchema]) && forall k :: k in ks + [ManifestSchema] <==> k in ks || k.ManifestSchema?
  {
    assert ks + [] == ks;
  }

  /** A key added is reported by an action of its own, and the upgrade by one more. */
  function Actions(ks: seq<LanguageKey>, upgrade: bool): seq<Action> {
    seq(|ks|, i requires 0 <= i < |ks| => AddKey(ks[i])) + if upgrade then [UpgradeSchema] else []
  }

  lemma ActionsAre(ks: seq<LanguageKey>, upgrade: bool)
    ensures var actions := Actions(ks, upgrade);
            && InsertSection !in actions && (UpgradeSchema in actions <==> upgrade)
            && (forall k: LanguageKey :: AddKey(k) in actions <==> k in ks)
            && (actions == [] <==> ks == [] && !upgrade)
  {
    var actions := Actions(ks, upgrade);
    forall k | k in ks ensures AddKey(k) in actions {
      var i :| 0 <= i < |ks| && ks[i] == k;
      assert actions[i] == AddKey(k);
    }
  }

  lemma MakeReport(lines: seq<string>, start: nat, ks: seq<LanguageKey>, actions: seq<Action>)
    requires start == LanguageStart(lines) < |lines| && (forall k: LanguageKey :: k in ks <==> !HasKey(k, lines, start))
    requires InsertSection !in actions && (UpgradeSchema in actions <==> IsOutdated(lines))
    requires forall k: LanguageKey :: AddKey(k) in actions <==> k in ks
    ensures ReportsEdits(lines, actions)
  {
    hide HasKey, IsOutdated, LanguageStart;
  }

  lemma NoSection(lines: seq<string>)
    requires LanguageStart(lines) == |lines|
    ensures !IsRefused(lines) && !IsCurrent(lines) && ReportsEdits(lines, [InsertSection])
  {}

  lemma FoundKeys(keys: seq<(string, nat)>, lines: seq<string>, start: nat)
    requires start < |lines|
    requires forall name :: FindKey(keys, name) ==
               var j := FirstWhere(KeyNamed(name), lines, start + 1, SectionEnd(lines, start));
               if j < SectionEnd(lines, start) then Some(j) else None
    ensures forall k: LanguageKey ::
              FindKey(keys, k.Name()) == if HasKey(k, lines, start) then Some(KeyIndex(k, lines, start)) else None
  {
    hide FindKey, FirstWhere;
  }

  lemma AllMissing(lines: seq<string>, start: nat, ks: seq<LanguageKey>)
    requires start < |lines| && (Version in ks <==> !HasKey(Version, lines, start))
    requires Compatibility in ks <==> !HasKey(Compatibility, lines, start)
    requires ManifestSchema in ks <==> !HasKey(ManifestSchema, lines, start)
    ensures forall k: LanguageKey :: k in ks <==> !HasKey(k, lines, start)
  {
    hide HasKey;
    forall k: LanguageKey ensures k in ks <==> !HasKey(k, lines, start) {
      match k
      case Version =>
      case Compatibility =>
      case ManifestSchema =>
    }
  }

  lemma NeedsNoEdit(lines: seq<string>)
    requires LanguageStart(lines) < |lines| && !IsRefused(lines)
    ensures IsCurrent(lines) <==> !IsOutdated(lines) && forall k: LanguageKey :: HasKey(k, lines, LanguageStart(lines))
  {
    hide HasKey, LanguageStart, KeyIndex, SchemaAt;
    if forall k: LanguageKey :: HasKey(k, lines, LanguageStart(lines)) {
      assert HasKey(ManifestSchema, lines, LanguageStart(lines));
    }
  }

  lemma CleanAllLength(lines: seq<string>)
    ensures |CleanAll(lines)| == |lines| && forall i :: 0 <= i < |lines| ==> CleanAll(lines)[i] == Clean(lines[i])
  {}

  /** A second plan has nothing to do and changes no character. */
  method PlanTwice(source: string) returns (first: Result<Plan, PlanError>, second: Result<Plan, PlanError>)
    ensures first.Ok? ==> second == Ok(Plan(first.value.source, false, []))
  {
    hide CleanAll, Lines, IsCurrent, IsRefused, Settings, Last;
    first := PlanManifestSource(source);
    second := first;
    if first.Ok? {
      CurrentIsNotRefused(CleanAll(Lines(first.value.source)));
      second := PlanManifestSource(first.value.source);
    }
  }

  lemma CurrentIsNotRefused(lines: seq<string>)
    requires IsCurrent(lines)
    ensures !IsRefused(lines)
  {}

  // ---------- the usual manifest, and the ones that are disturbed ----------

  /** No settings before the first header, and no header but the planner's own that the
      reader takes for `[language]`, up to and including that one. */
  ghost predicate IsUsual(lines: seq<string>) {
    var start := LanguageStart(lines);
    if start == |lines| then
      forall k: LanguageKey, x :: 0 <= x < FirstWhere(AnyHeader, lines, 0, |lines|) ==>
          KeyAt(lines[x]) != Some(k.Name())
    else
      forall x :: 0 <= x < start ==> !(IsHeader(lines[x]) && SectionRead(lines[x]) == "language")
  }

  lemma {:induction false} NoLanguageSection(k: LanguageKey, lines: seq<string>)
    requires forall x :: 0 <= x < |lines| ==> !(IsHeader(lines[x]) && SectionRead(lines[x]) == "language")
    ensures EndSection("", lines) != "language" && Last(k, "", lines) == None
  {
    hide IsHeader, SectionRead, SettingAt;
    if lines != [] {
      var n := |lines| - 1;
      NoLanguageSection(k, lines[..n]);
      SettingsNameTheirSection(EndSection("", lines[..n]), lines[n]);
    }
  }

  /** On a usual manifest the plan preserves every reading, except that schema 0 is 1. */
  lemma UsualIsKept(k: LanguageKey, lines: seq<string>)
    requires IsUsual(lines)
    ensures !IsDisturbed(k, lines)
  {
    hide IsHeader, SectionRead, KeyAt, SetAt, Last;
    var start := LanguageStart(lines);
    if start == |lines| {
      var first := FirstWhere(AnyHeader, lines, 0, |lines|);
      forall x | 0 <= x < first ensures !IsHeader(lines[..first][x]) { assert !AnyHeader.Holds(lines[x]); }
      SetInSection(k, lines[..first]);
    } else {
      NoLanguageSection(k, lines[..start]);
      assert lines[..start + 1] == lines[..start] + [lines[start]];
      LastConcat(k, "", lines[..start], [lines[start]]);
      ReadOne(k, EndSection("", lines[..start]), lines[start]);
      HeaderSetsNothing(k, EndSection("", lines[..start]), lines[start]);
    }
  }

  lemma HeaderSetsNothing(k: LanguageKey, section: string, line: string)
    requires SectionPlanned(line).Some?
    ensures SetAt(k, section, line) == None
  {}

  /** `version = "..."`, without a comment and on one line. */
  function VersionLine(value: string): string {
    "version" + " = " + ("\"" + value + "\"")
  }

  lemma VersionLineReads(value: string)
    requires '#' !in value && '\n' !in value
    ensures var line := Clean(VersionLine(value));
            SetAt(Version, "language", line) == Some(Some(Text(value))) && !IsHeader(line)
  {
    hide Clean, Trim, SplitOnce, NormalizeKey, ParseTomlString;
    NamesArePlain(Version);
    QuotedReads(value);
    var rest := KeyLineReads("version", "\"" + value + "\"");
    NormalizeTwice("version ");
    assert Clean(VersionLine(value))[0] == 'v';
    assert "version" + " " == "version ";
  }

  /** A version before every header, in a manifest without `[language]`, is disturbed unless
      the headers behind it set one: the inserted section takes it in. */
  lemma SettingBeforeHeaderIsTaken(value: string, rest: seq<string>)
    requires value != CURRENT_VERSION && '#' !in value && '\n' !in value
    requires (rest != [] ==> IsHeader(rest[0])) && LanguageStart(rest) == |rest|
    ensures var lines := [Clean(VersionLine(value))] + rest;
            LanguageStart(lines) == |lines| && (IsDisturbed(Version, lines) <==> Last(Version, "", rest).None?)
  {
    hide Clean, VersionLine, IsHeader, SectionRead, SetAt, Last, SectionPlanned;
    var line := Clean(VersionLine(value));
    var lines := [line] + rest;
    VersionLineReads(value);
    NoSectionWithoutHeader(line);
    forall x | 0 <= x < |lines| ensures !SectionNamed("language").Holds(lines[x]) {
      if x > 0 { assert lines[x] == rest[x - 1]; }
    }
    FirstWhereIs(SectionNamed("language"), lines, 0, |lines|, |lines|);
    FirstWhereIs(AnyHeader, lines, 0, |lines|, 1);
    assert lines[..1] == [line] && lines[1..] == rest;
    ReadOne(Version, "language", line);
  }

  lemma NoSectionWithoutHeader(line: string)
    requires !IsHeader(line)
    ensures SectionPlanned(line).None?
  {}

  /** `[[language]]` is a header of the section for the reader and another one for the planner. */
  lemma DoubledHeaderReads()
    ensures IsHeader("[[language]]") && SectionRead("[[language]]") == "language"
    ensures SectionPlanned("[[language]]") != Some("language")
  {
    hide Trim, IsWhitespace;
    LettersAndBrackets();
    TrimIdempotent("language");
    TrimIdempotent("[language]");
    var line := "[[language]]";
    assert line[1..] == "[language]]" && line[1..][1..] == "language]]";
    assert line[1..|line| - 1] == "[language]";
    assert "language]]"[..9] == "language]" && "language]"[..8] == "language";
  }

  /** A version under `[[language]]`, in front of `[language]`, is disturbed unless the lines
      behind set one: the default put under `[language]` hides it. */
  lemma DoubledHeaderIsHidden(value: string, rest: seq<string>)
    requires value != CURRENT_VERSION && '#' !in value && '\n' !in value
    ensures var lines := ["[[language]]", Clean(VersionLine(value)), LanguageHeader()] + rest;
            LanguageStart(lines) == 2 && (IsDisturbed(Version, lines) <==> Last(Version, "language", rest).None?)
  {
    hide Clean, VersionLine, IsHeader, SectionRead, SetAt, Last, SectionPlanned, LanguageHeader, EndSection;
    var doubled, line := "[[language]]", Clean(VersionLine(value));
    var lines := [doubled, line, LanguageHeader()] + rest;
    VersionLineReads(value);
    DoubledHeaderReads();
    HeaderReads();
    NoSectionWithoutHeader(line);
    assert lines[0] == doubled && lines[1] == line && lines[2] == LanguageHeader();
    forall x | 0 <= x < 2 ensures !SectionNamed("language").Holds(lines[x]) {
      assert x == 0 || x == 1;
    }
    FirstWhereIs(SectionNamed("language"), lines, 0, |lines|, 2);
    assert lines[..3] == [doubled, line, LanguageHeader()] && lines[3..] == rest;
    DoubledHeaderSets(doubled, line, LanguageHeader());
  }

  lemma DoubledHeaderSets(doubled: string, line: string, header: string)
    requires IsHeader(doubled) && SectionRead(doubled) == "language" && !IsHeader(line) && IsHeader(header)
    ensures Last(Version, "", [doubled, line, header]) == SetAt(Version, "language", line)
  {
    hide IsHeader, SectionRead, SplitOnce, ReadValue;
    assert [doubled, line, header][..2] == [doubled, line];
    assert [doubled, line][..1] == [doubled] && [doubled][..0] == [];
    assert EndSection("", [doubled]) == "language" && Last(Version, "", [doubled]) == None;
    assert Last(Version, "", [doubled, line]) == SetAt(Version, "language", line);
  }
}
