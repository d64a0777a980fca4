/**
 Bringing a manifest's `[language]` section up to date (`plan_manifest_source` in
 `migration.rs`), and what the edit leaves unchanged for the manifest reader.
 */
module ManifestMigration {
  import opened Wrappers
  import opened Text
  import opened TomlText
  import opened ManifestText

  // ---------- the printed defaults ----------

  function DefaultText(k: LanguageKey): string {
    match k
    case Version => "\"" + CURRENT_VERSION + "\""
    case Compatibility => "\"" + "minor" + "\""
    case ManifestSchema => "1"
  }

  function DefaultLine(k: LanguageKey): string { k.Name() + " = " + DefaultText(k) }

  function DefaultLines(ks: seq<LanguageKey>): seq<string> {
    seq(|ks|, i requires 0 <= i < |ks| => DefaultLine(ks[i]))
  }

  lemma NamesArePlain(k: LanguageKey)
    ensures IsPlainKey(k.Name()) && k.Name()[0] != '['
    ensures forall j: LanguageKey :: j.Name() == k.Name() <==> j == k
  {}

  lemma DefaultTextReads(k: LanguageKey)
    ensures Clean(DefaultText(k)) == DefaultText(k) && Trim(DefaultText(k)) == DefaultText(k)
    ensures ReadValue(k, DefaultText(k)) == Some(Default(k))
    ensures '\n' !in DefaultText(k)
  {
    hide Trim, Clean, ParseTomlString;
    match k
    case Version => QuotedReads(CURRENT_VERSION);
    case Compatibility => QuotedReads("minor");
    case ManifestSchema =>
      TrimIdempotent("1");
      OneReads();
  }

  lemma QuotedReads(text: string)
    requires '#' !in text && '\n' !in text
    ensures var quoted := "\"" + text + "\"";
            && Clean(quoted) == quoted && Trim(quoted) == quoted && ParseTomlString(quoted) == Some(text)
            && '\n' !in quoted
  {
    hide Trim;
    var quoted := "\"" + text + "\"";
    TrimIdempotent(quoted);
    assert quoted[1..|quoted| - 1] == text;
  }

  /** The key of a line as the planner sees it. */
  function KeyAt(line: string): Option<string> {
    if line == "" then None
    else
      match SplitOnce(line, '=')
      case None => None
      case Some((key, _)) => Some(NormalizeKey(key))
  }

  /** The planner and the reader agree on the keys of lines that are no headers. */
  lemma KeysAgree(k: LanguageKey, line: string)
    requires !IsHeader(line)
    ensures KeyAt(line) == Some(k.Name()) <==> SetAt(k, "language", line).Some?
  {
    hide SplitOnce, Trim, IsHeader;
    if line != "" && SplitOnce(line, '=').Some? {
      TrimTwice(SplitOnce(line, '=').value.0);
    }
  }

  /** A printed default sets its key to the default, and does nothing else. */
  lemma DefaultLineReads(k: LanguageKey)
    ensures var line := Clean(DefaultLine(k));
            && !IsHeader(line) && KeyAt(line) == Some(k.Name()) && KeptSetting("language", line) == []
            && (forall j: LanguageKey :: SetAt(j, "language", line) == if j == k then Some(Some(Default(k))) else None)
    ensures '\n' !in DefaultLine(k)
  {
    hide Clean, Trim, SplitOnce, NormalizeKey, ReadValue, DefaultText;
    NamesArePlain(k);
    DefaultTextReads(k);
    var rest := KeyLineReads(k.Name(), DefaultText(k));
    assert Clean(DefaultLine(k))[0] == k.Name()[0];
    NormalizeTwice(k.Name() + " ");
    forall j: LanguageKey ensures j.Name() == k.Name() <==> j == k { NamesArePlain(j); }
  }

  lemma NormalizeTwice(key: string)
    ensures NormalizeKey(Trim(key)) == NormalizeKey(key)
  {
    hide Trim;
    TrimTwice(key);
  }

  // ---------- searching lines ----------

  /** The section a header opens for the planner, which strips one pair of brackets. */
  function SectionPlanned(line: string): Option<string> {
    if IsHeader(line) then Some(Trim(line[1..|line| - 1])) else None
  }

  datatype Probe = SectionNamed(name: string) | AnyHeader | KeyNamed(name: string) {
    predicate Holds(line: string) {
      match this
      case SectionNamed(name) => SectionPlanned(line) == Some(name)
      case AnyHeader => IsHeader(line)
      case KeyNamed(name) => KeyAt(line) == Some(name)
    }
  }

  /** The first line in a range that a probe holds of, or the end of the range. */
  function FirstWhere(p: Probe, lines: seq<string>, i: nat, end: nat): (j: nat)
    requires i <= end <= |lines|
    ensures i <= j <= end && (j < end ==> p.Holds(lines[j]))
    ensures forall x :: i <= x < j ==> !p.Holds(lines[x])
    decreases end - i
  {
    if i == end || p.Holds(lines[i]) then i else FirstWhere(p, lines, i + 1, end)
  }

  lemma FirstWhereIs(p: Probe, lines: seq<string>, i: nat, end: nat, j: nat)
    requires i <= j <= end <= |lines| && (j < end ==> p.Holds(lines[j]))
    requires forall x :: i <= x < j ==> !p.Holds(lines[x])
    ensures FirstWhere(p, lines, i, end) == j
  {
  }

  function LanguageStart(lines: seq<string>): nat { FirstWhere(SectionNamed("language"), lines, 0, |lines|) }

  /** Where the section that begins at `start` ends. */
  function SectionEnd(lines: seq<string>, start: nat): nat
    requires start < |lines|
  {
    FirstWhere(AnyHeader, lines, start + 1, |lines|)
  }

  function KeyIndex(k: LanguageKey, lines: seq<string>, start: nat): nat
    requires start < |lines|
  {
    FirstWhere(KeyNamed(k.Name()), lines, start + 1, SectionEnd(lines, start))
  }

  predicate HasKey(k: LanguageKey, lines: seq<string>, start: nat)
    requires start < |lines|
  {
    KeyIndex(k, lines, start) < SectionEnd(lines, start)
  }

  function SchemaAt(line: string): Option<nat> {
    match SplitOnce(line, '=')
    case None => None
    case Some((_, value)) => ParseTomlU32(value)
  }

  /** `find_section`. */
  method FindSection(source: string, name: string) returns (found: Option<(nat, nat)>)
    ensures var lines := CleanAll(Lines(source));
            var start := FirstWhere(SectionNamed(name), lines, 0, |lines|);
            found == if start == |lines| then None else Some((start, SectionEnd(lines, start)))
  {
    hide Clean, Lines, FirstWhere, IsHeader, SectionPlanned;
    var lines := Lines(source);
    ghost var cleaned := CleanAll(lines);
    var start := 0;
    while start < |lines| && SectionPlanned(Clean(lines[start])) != Some(name)
      invariant start <= |lines|
      invariant forall x :: 0 <= x < start ==> !SectionNamed(name).Holds(cleaned[x])
    {
      start := start + 1;
    }
    FirstWhereIs(SectionNamed(name), cleaned, 0, |cleaned|, start);
    if start == |lines| {
      return None;
    }
    var end := start + 1;
    while end < |lines| && !IsHeader(Clean(lines[end]))
      invariant start < end <= |lines|
      invariant forall x :: start < x < end ==> !AnyHeader.Holds(cleaned[x])
    {
      end := end + 1;
    }
    FirstWhereIs(AnyHeader, cleaned, start + 1, |cleaned|, end);
    found := Some((start, end));
  }

  function FindKey(keys: seq<(string, nat)>, name: string): Option<nat> {
    if keys == [] then None else if keys[0].0 == name then Some(keys[0].1) else FindKey(keys[1..], name)
  }

  lemma {:induction false} FindKeyAppend(keys: seq<(string, nat)>, key: (string, nat), name: string)
    ensures FindKey(keys + [key], name) ==
            if FindKey(keys, name).Some? then FindKey(keys, name) else if key.0 == name then Some(key.1) else None
  {
    if keys == [] {
      assert [] + [key] == [key];
    } else {
      assert (keys + [key])[1..] == keys[1..] + [key];
      FindKeyAppend(keys[1..], key, name);
    }
  }

  /** `section_keys`: the first entry of a key is its first line in the range. */
  method SectionKeys(lines: seq<string>, start: nat, end: nat) returns (keys: seq<(string, nat)>)
    requires start <= end <= |lines|
    ensures forall name :: FindKey(keys, name) ==
              var j := FirstWhere(KeyNamed(name), CleanAll(lines), start, end);
              if j < end then Some(j) else None
  {
    hide Clean, FirstWhere, FindKey, SplitOnce, NormalizeKey;
    keys := [];
    ghost var cleaned := CleanAll(lines);
    NoKeys(cleaned, start);
    for index := start to end
      invariant AllKeysFound(keys, cleaned, start, index)
    {
      var line := Clean(lines[index]);
      NextKeyFound(keys, cleaned, start, index);
      var split := SplitOnce(line, '=');
      if line != "" && split.Some? {
        keys := keys + [(NormalizeKey(split.value.0), index)];
      }
    }
    forall name ensures FindKey(keys, name) ==
              var j := FirstWhere(KeyNamed(name), CleanAll(lines), start, end);
              if j < end then Some(j) else None
    {
      assert KeyFound(keys, cleaned, start, end, name);
      var j := if FindKey(keys, name).Some? then FindKey(keys, name).value else end;
      FirstWhereIs(KeyNamed(name), cleaned, start, end, j);
    }
  }

  lemma NoKeys(lines: seq<string>, start: nat)
    requires start <= |lines|
    ensures AllKeysFound([], lines, start, start)
  {}

  ghost predicate AllKeysFound(keys: seq<(string, nat)>, lines: seq<string>, start: nat, end: nat)
    requires start <= end <= |lines|
  {
    forall name :: KeyFound(keys, lines, start, end, name)
  }

  lemma NextKeyFound(keys: seq<(string, nat)>, lines: seq<string>, start: nat, end: nat)
    requires start <= end < |lines| && AllKeysFound(keys, lines, start, end)
    ensures KeyAt(lines[end]).None? ==> AllKeysFound(keys, lines, start, end + 1)
    ensures KeyAt(lines[end]).Some? ==> AllKeysFound(keys + [(KeyAt(lines[end]).value, end)], lines, start, end + 1)
  {
    hide FindKey, KeyAt;
    var key, next := KeyAt(lines[end]), end + 1;
    var more := if key.Some? then keys + [(key.value, end)] else keys;
    forall name: string ensures KeyFound(more, lines, start, next, name) {
      assert KeyFound(keys, lines, start, end, name);
      if key.Some? {
        FindKeyAppend(keys, (key.value, end), name);
      }
    }
  }

  /** What is found so far for a key is its first line before `end`. */
  predicate KeyFound(keys: seq<(string, nat)>, lines: seq<string>, start: nat, end: nat, name: string)
    requires start <= end <= |lines|
  {
    var found := FindKey(keys, name);
    var j := if found.Some? then found.value else end;
    start <= j <= end && (found.Some? <==> j < end) && (j < end ==> KeyNamed(name).Holds(lines[j]))
    && forall x :: start <= x < j ==> !KeyNamed(name).Holds(lines[x])
  }

  /** `manifest_schema_value`, on the raw line. */
  function ManifestSchemaValue(line: string): Option<nat> {
    match SplitOnce(Before(line, '#'), '=')
    case None => None
    case Some((_, value)) => ParseUnsigned(Trim(value), U32_MAX)
  }

  lemma ManifestSchemaValueIsClean(line: string)
    ensures ManifestSchemaValue(line) == SchemaAt(Clean(line))
  {
    hide Trim, Find, ParseUnsigned, IsWhitespace;
    var s := Before(line, '#');
    var left, right := TrimSplits(s);
    var core := Trim(s);
    assert !IsWhitespace('=') by { EqualsIsNoSpace(); }
    assert '=' !in left && '=' !in right;
    if '=' in core {
      var (key, value) := SplitOnce(core, '=').value;
      assert s == (left + key) + ['='] + (value + right);
      SplitOnceAt(left + key, '=', value + right);
      TrimIgnoresTail(value, right);
    }
  }

  lemma EqualsIsNoSpace()
    ensures !IsWhitespace('=')
  {}
}
