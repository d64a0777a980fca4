/**
 The line loop of the manifest reader (`PackageManifest::parse` in `package.rs`): a
 current section, the three `[language]` values, and every other setting in order.
 */
module ManifestText {
  import opened Wrappers
  import opened Text
  import opened TomlText

  datatype LanguageKey = Version | Compatibility | ManifestSchema {
    function Name(): string {
      match this
      case Version => "version"
      case Compatibility => "compatibility"
      case ManifestSchema => "manifest_schema"
    }
  }

  datatype Value = Text(text: string) | Number(number: nat)

  /** A `key = value` line under a section header. */
  datatype Setting = Setting(section: string, key: string, value: string)

  /** The `[language]` part of a manifest, and the settings the rest of it is read from. */
  datatype Manifest = Manifest(version: string, compatibility: string, schema: nat, settings: seq<Setting>)

  const CURRENT_VERSION := "0.4.25"
  const CURRENT_SCHEMA: nat := 1

  function Default(k: LanguageKey): Value {
    match k
    case Version => Text(CURRENT_VERSION)
    case Compatibility => Text("minor")
    case ManifestSchema => Number(CURRENT_SCHEMA)
  }

  // ---------- one line ----------

  predicate IsHeader(line: string) { StartsWith(line, '[') && EndsWith(line, ']') }

  /** The section a header opens for the reader, which drops any number of brackets. */
  function SectionRead(line: string): string {
    Trim(TrimEndMatches(TrimStartMatches(line, '['), ']'))
  }

  function SectionAfter(section: string, line: string): string {
    if IsHeader(line) then SectionRead(line) else section
  }

  function SettingAt(section: string, line: string): Option<Setting> {
    if line == "" || IsHeader(line) then None
    else
      match SplitOnce(line, '=')
      case None => None
      case Some((key, value)) => Some(Setting(section, NormalizeKey(Trim(key)), Trim(value)))
  }

  /** What a value reads as for a key; a text that does not parse leaves the default. */
  function ReadValue(k: LanguageKey, value: string): Option<Value> {
    if k.ManifestSchema? then
      var n := ParseTomlU32(value);
      if n.None? then None else Some(Number(n.value))
    else
      var s := ParseTomlString(value);
      if s.None? then None else Some(Text(s.value))
  }

  /** What a line sets a language key to, if it does. */
  function SetAt(k: LanguageKey, section: string, line: string): Option<Option<Value>> {
    match SettingAt(section, line)
    case None => None
    case Some(s) => if s.section == "language" && s.key == k.Name() then Some(ReadValue(k, s.value)) else None
  }

  /** The sections the rest of the manifest is read from: not before the first header. */
  function KeptSetting(section: string, line: string): seq<Setting> {
    match SettingAt(section, line)
    case None => []
    case Some(s) => if section == "language" || section == "" then [] else [s]
  }

  // ---------- all lines ----------

  function EndSection(section: string, lines: seq<string>): string {
    if lines == [] then section
    else SectionAfter(EndSection(section, lines[..|lines| - 1]), lines[|lines| - 1])
  }

  function Settings(section: string, lines: seq<string>): seq<Setting> {
    if lines == [] then []
    else
      var front := lines[..|lines| - 1];
      Settings(section, front) + KeptSetting(EndSection(section, front), lines[|lines| - 1])
  }

  /** What the last line that sets a key makes of it. */
  function Last(k: LanguageKey, section: string, lines: seq<string>): Option<Option<Value>> {
    if lines == [] then None
    else
      var front := lines[..|lines| - 1];
      var here := SetAt(k, EndSection(section, front), lines[|lines| - 1]);
      if here.Some? then here else Last(k, section, front)
  }

  function OrDefault(k: LanguageKey, last: Option<Option<Value>>): Value {
    if last.None? || last.value.None? then Default(k) else last.value.value
  }

  /** The value the reader ends up with. */
  function Effective(k: LanguageKey, source: string): Value { OrDefault(k, Last(k, "", CleanAll(Lines(source)))) }

  function SettingsOf(source: string): seq<Setting> { Settings("", CleanAll(Lines(source))) }

  /** A variable of the reader after the lines read so far. */
  function Variable(k: LanguageKey, lines: seq<string>): Option<Value> {
    var last := Last(k, "", lines);
    if last.None? then None else last.value
  }

  function TextOf(value: Option<Value>): Option<string> {
    if value.Some? && value.value.Text? then Some(value.value.text) else None
  }

  function NumberOf(value: Option<Value>): Option<nat> {
    if value.Some? && value.value.Number? then Some(value.value.number) else None
  }

  /** The reader: the last setting of each language key counts. */
  method Parse(source: string) returns (m: Manifest)
    ensures Text(m.version) == Effective(Version, source)
    ensures Text(m.compatibility) == Effective(Compatibility, source)
    ensures Number(m.schema) == Effective(ManifestSchema, source)
    ensures m.settings == SettingsOf(source)
  {
    hide Clean, Lines, IsHeader, SectionRead, NormalizeKey, SplitOnce, ParseTomlString, ParseTomlU32, Trim;
    hide EndSection, Settings, Last, Variable, KeptSetting, SetAt;
    var section := "";
    var version, compatibility, schema := None, None, None;
    var settings: seq<Setting> := [];
    var lines := Lines(source);
    ghost var cleaned := CleanAll(lines);
    NothingRead();
    assert cleaned[..0] == [];
    for i := 0 to |lines|
      invariant section == EndSection("", cleaned[..i]) && settings == Settings("", cleaned[..i])
      invariant version == TextOf(Variable(Version, cleaned[..i]))
      invariant compatibility == TextOf(Variable(Compatibility, cleaned[..i]))
      invariant schema == NumberOf(Variable(ManifestSchema, cleaned[..i]))
    {
      var line := Clean(lines[i]);
      NextLine(cleaned, i);
      LineEffects(section, line);
      if line == "" {
        continue;
      }
      if IsHeader(line) {
        section := SectionRead(line);
        continue;
      }
      var split := SplitOnce(line, '=');
      if split.None? {
        continue;
      }
      var key := NormalizeKey(Trim(split.value.0));
      var value := Trim(split.value.1);
      if section == "language" {
        if key == "version" {
          version := ParseTomlString(value);
        } else if key == "compatibility" {
          compatibility := ParseTomlString(value);
        } else if key == "manifest_schema" {
          schema := ParseTomlU32(value);
        }
      } else if section != "" {
        settings := settings + [Setting(section, key, value)];
      }
    }
    assert cleaned[..|lines|] == cleaned;
    VariablesAreEffective(source);
    m := Manifest(if version.None? then CURRENT_VERSION else version.value,
                  if compatibility.None? then "minor" else compatibility.value,
                  if schema.None? then CURRENT_SCHEMA else schema.value, settings);
  }

  lemma NothingRead()
    ensures EndSection("", []) == "" && Settings("", []) == []
    ensures forall k: LanguageKey :: Variable(k, []) == None
  {}

  /** Reading one more line. */
  lemma NextLine(lines: seq<string>, i: nat)
    requires i < |lines|
    ensures var section := EndSection("", lines[..i]);
            && EndSection("", lines[..i + 1]) == SectionAfter(section, lines[i])
            && Settings("", lines[..i + 1]) == Settings("", lines[..i]) + KeptSetting(section, lines[i])
            && forall k: LanguageKey :: Variable(k, lines[..i + 1]) ==
                 match SetAt(k, section, lines[i]) { case Some(value) => value case None => Variable(k, lines[..i]) }
  {
    hide SectionAfter, KeptSetting, SetAt;
    assert lines[..i + 1][..i] == lines[..i];
  }

  /** What a line does, by its shape and the current section. */
  lemma LineEffects(section: string, line: string)
    ensures line == "" ==> !IsHeader(line)
    ensures line == "" || IsHeader(line) || SplitOnce(line, '=').None? ==>
              KeptSetting(section, line) == [] && forall k: LanguageKey :: SetAt(k, section, line) == None
    ensures !(line == "" || IsHeader(line) || SplitOnce(line, '=').None?) ==>
              var (left, right) := SplitOnce(line, '=').value;
              var key, value := NormalizeKey(Trim(left)), Trim(right);
              && KeptSetting(section, line) ==
                (if section == "language" || section == "" then [] else [Setting(section, key, value)])
              && forall k: LanguageKey :: SetAt(k, section, line) ==
                   if section == "language" && key == k.Name() then Some(ReadValue(k, value)) else None
  {
    hide NormalizeKey, Trim, SplitOnce, ReadValue;
  }

  lemma VariablesAreEffective(source: string)
    ensures forall k: LanguageKey ::
              var v := Variable(k, CleanAll(Lines(source)));
              KindFits(k, v) && Effective(k, source) == if v.None? then Default(k) else v.value
  {
    hide Last, CleanAll, Lines;
    LastKinds(CleanAll(Lines(source)));
  }

  predicate KindFits(k: LanguageKey, value: Option<Value>) {
    value.Some? ==> (value.value.Number? <==> k.ManifestSchema?)
  }

  lemma LastKinds(lines: seq<string>)
    ensures forall k: LanguageKey :: KindFits(k, Variable(k, lines))
  {
    forall k: LanguageKey ensures KindFits(k, Variable(k, lines)) { LastKind(k, lines); }
  }

  lemma {:induction false} LastKind(k: LanguageKey, lines: seq<string>)
    ensures KindFits(k, Variable(k, lines))
  {
    hide SettingAt;
    if lines != [] {
      LastKind(k, lines[..|lines| - 1]);
    }
  }

  // ---------- reading in two parts ----------

  lemma {:induction false} EndSectionConcat(section: string, a: seq<string>, b: seq<string>)
    ensures EndSection(section, a + b) == EndSection(EndSection(section, a), b)
  {
    hide SectionAfter;
    if b == [] {
      assert a + b == a;
    } else {
      assert (a + b)[..|a + b| - 1] == a + b[..|b| - 1];
      EndSectionConcat(section, a, b[..|b| - 1]);
    }
  }

  lemma {:induction false} SettingsConcat(section: string, a: seq<string>, b: seq<string>)
    ensures Settings(section, a + b) == Settings(section, a) + Settings(EndSection(section, a), b)
  {
    hide SectionAfter, KeptSetting;
    if b == [] {
      assert a + b == a;
    } else {
      assert (a + b)[..|a + b| - 1] == a + b[..|b| - 1];
      SettingsConcat(section, a, b[..|b| - 1]);
      EndSectionConcat(section, a, b[..|b| - 1]);
    }
  }

  lemma {:induction false} LastConcat(k: LanguageKey, section: string, a: seq<string>, b: seq<string>)
    ensures var later := Last(k, EndSection(section, a), b);
            Last(k, section, a + b) == if later.Some? then later else Last(k, section, a)
  {
    hide SectionAfter, SetAt;
    if b == [] {
      assert a + b == a;
    } else {
      assert (a + b)[..|a + b| - 1] == a + b[..|b| - 1];
      LastConcat(k, section, a, b[..|b| - 1]);
      EndSectionConcat(section, a, b[..|b| - 1]);
    }
  }
}
