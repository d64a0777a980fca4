/** The lockfile as text: the printer `render_lock_entries` and the separate line reader
    `parse_lockfile_packages` (`package.rs`). */
module LockText {
  import opened Wrappers
  import opened Text
  import opened TomlText
  import opened LockGraph

  // ---------- printing ----------

  /** `escape_lock_string`. */
  function Escape(value: string): (s: string)
    ensures |s| >= |value|
  {
    if value == "" then ""
    else (if value[0] == '\\' then "\\\\" else if value[0] == '"' then "\\\"" else [value[0]]) + Escape(value[1..])
  }

  function Quoted(value: string): string { "\"" + Escape(value) + "\"" }

  function FieldLine(key: string, value: string): string { key + " = " + Quoted(value) }

  function OptionalFieldLine(key: string, value: Option<string>): seq<string> {
    if value.Some? then [FieldLine(key, value.value)] else []
  }

  function CommaList(values: seq<string>): string {
    if |values| == 0 then "" else if |values| == 1 then Quoted(values[0])
    else Quoted(values[0]) + ", " + CommaList(values[1..])
  }

  /** The lines after `[[package]]` that the reader has no use for. */
  function ExtraLines(e: LockPackage): seq<string> {
    OptionalFieldLine("language", e.language)
    + OptionalFieldLine("compatibility", e.compatibility)
    + (if e.manifestSchema.Some? then ["manifest_schema" + " = " + Decimal(e.manifestSchema.value)] else [])
    + ["dependencies" + " = " + "[" + CommaList(e.dependencies) + "]", ""]
  }

  function EntryLines(e: LockPackage): seq<string> {
    ["[[package]]", FieldLine("name", e.name), FieldLine("version", e.version), FieldLine("source", e.source)]
    + OptionalFieldLine("content_hash", e.contentHash)
    + ExtraLines(e)
  }

  function AllEntryLines(es: seq<LockPackage>): seq<string> {
    if |es| == 0 then [] else AllEntryLines(es[..|es| - 1]) + EntryLines(es[|es| - 1])
  }

  function Note(): (note: string)
    ensures '\n' !in note
  {
    // in two pieces, each short enough to be searched for a line break
    " This file is generated by `num lock`." + " Do not edit by hand."
  }

  function Header(): seq<string> {
    ["#" + Note(), "", "version" + " = " + "1", ""]
  }

  function Rendered(es: seq<LockPackage>): string {
    Unlines(Header() + AllEntryLines(es))
  }

  /** `render_lock_entries`. */
  method RenderLockEntries(es: seq<LockPackage>) returns (out: string)
    ensures out == Rendered(es)
  {
    hide Header, EntryLines, Unlines;
    out := Unlines(Header());
    assert Header() + AllEntryLines(es[..0]) == Header();
    for i := 0 to |es|
      invariant out == Unlines(Header() + AllEntryLines(es[..i]))
    {
      assert es[..i + 1][..i] == es[..i];
      assert Header() + AllEntryLines(es[..i + 1]) == (Header() + AllEntryLines(es[..i])) + EntryLines(es[i]);
      UnlinesConcat(Header() + AllEntryLines(es[..i]), EntryLines(es[i]));
      out := out + Unlines(EntryLines(es[i]));
    }
    assert es[..|es|] == es;
  }

  // ---------- reading ----------

  datatype Pin = Pin(name: string, version: string, source: string, contentHash: Option<string>)

  datatype Reader = Reader(done: seq<Pin>, current: Option<Pin>) {
    function Finished(): seq<Pin> {
      if current.Some? then done + [current.value] else done
    }
  }

  function SetField(pin: Pin, key: string, value: string): Pin {
    var text := ParseTomlString(value);
    if key == "name" then (if text.Some? then pin.(name := text.value) else pin)
    else if key == "version" then (if text.Some? then pin.(version := text.value) else pin)
    else if key == "source" then (if text.Some? then pin.(source := text.value) else pin)
    else if key == "content_hash" then pin.(contentHash := text)
    else pin
  }

  /** One turn of the reader, on a cleaned line. */
  function ReadLine(r: Reader, line: string): Reader {
    if line == "" then r
    else if line == "[[package]]" then Reader(r.Finished(), Some(Pin("", "", "", None)))
    else if r.current.None? then r
    else
      match SplitOnce(line, '=')
      case None => r
      case Some((key, value)) =>
        r.(current := Some(SetField(r.current.value, NormalizeKey(Trim(key)), Trim(value))))
  }

  function ReadLines(r: Reader, lines: seq<string>): Reader {
    if |lines| == 0 then r else ReadLine(ReadLines(r, lines[..|lines| - 1]), lines[|lines| - 1])
  }

  function ParsedPackages(source: string): seq<Pin> {
    ReadLines(Reader([], None), CleanAll(Lines(source))).Finished()
  }

  /** `parse_lockfile_packages`. */
  method ParseLockfilePackages(source: string) returns (packages: seq<Pin>)
    ensures packages == ParsedPackages(source)
  {
    packages := [];
    var current: Option<Pin> := None;
    var lines := Lines(source);
    ghost var cleaned := CleanAll(lines);
    for i := 0 to |lines|
      invariant Reader(packages, current) == ReadLines(Reader([], None), cleaned[..i])
    {
      assert cleaned[..i + 1][..i] == cleaned[..i];
      var line := Clean(lines[i]);
      if line == "" {
        continue;
      }
      if line == "[[package]]" {
        if current.Some? {
          packages := packages + [current.value];
        }
        current := Some(Pin("", "", "", None));
        continue;
      }
      if current.None? {
        continue;
      }
      var split := SplitOnce(line, '=');
      if split.Some? {
        current := Some(SetField(current.value, NormalizeKey(Trim(split.value.0)), Trim(split.value.1)));
      }
    }
    assert cleaned[..|lines|] == cleaned;
    if current.Some? {
      packages := packages + [current.value];
    }
  }

  lemma {:induction false} ReadLinesConcat(r: Reader, a: seq<string>, b: seq<string>)
    ensures ReadLines(r, a + b) == ReadLines(ReadLines(r, a), b)
  {
    hide ReadLine;
    if b == [] {
      assert a + b == a;
    } else {
      assert (a + b)[..|a + b| - 1] == a + b[..|b| - 1];
      ReadLinesConcat(r, a, b[..|b| - 1]);
    }
  }

  // ---------- what the reader makes of a printed field ----------

  /** Text the reader returns unchanged. */
  predicate Plain(value: string) {
    '#' !in value && '"' !in value && '\\' !in value && '\n' !in value
  }

  predicate OneLine(value: string) { '\n' !in value }

  predicate OneLineOption(value: Option<string>) { value.Some? ==> OneLine(value.value) }

  /** A printed value as the reader sees it: cut at its first `#`, still escaped. */
  function ReadValue(value: string): Option<string> {
    ParseTomlString(Clean(Quoted(value)))
  }

  lemma {:induction false} EscapeMembers(value: string)
    ensures forall c :: c != '\\' ==> (c in Escape(value) <==> c in value)
    ensures Escape(value) == value <==> '"' !in value && '\\' !in value
    ensures Escape(value) != value ==> |Escape(value)| > |value|
  {
    if value != "" {
      EscapeMembers(value[1..]);
      assert value == [value[0]] + value[1..];
    }
  }

  /** One field survives printing and reading exactly when its text is plain. */
  lemma FieldRoundTrip(value: string)
    requires OneLine(value)
    ensures ReadValue(value) == Some(value) <==> Plain(value)
  {
    hide Escape;
    EscapeMembers(value);
    var q := Quoted(value);
    if '#' in value {
      var left, right := TrimSplits(Before(q, '#'));
      var shown := Clean(q);
      TrimIdempotent(shown);
      if ReadValue(value).Some? {
        var inner := shown[1..|shown| - 1];
        assert ReadValue(value) == Some(inner);
        assert '#' !in shown;
        assert '#' !in inner;
      }
    } else {
      assert Before(q, '#') == q;
      assert !IsWhitespace('"');
      TrimIdempotent(q);
      assert q[1..|q| - 1] == Escape(value);
    }
  }

  // ---------- what the reader makes of a printed entry ----------

  function ReadText(value: string): string {
    var text := ReadValue(value);
    if text.Some? then text.value else ""
  }

  function ReadBack(e: LockPackage): Pin {
    Pin(ReadText(e.name), ReadText(e.version), ReadText(e.source),
        if e.contentHash.Some? then ReadValue(e.contentHash.value) else None)
  }

  predicate OneLineExtras(e: LockPackage) {
    && OneLineOption(e.language) && OneLineOption(e.compatibility)
    && forall d :: d in e.dependencies ==> OneLine(d)
  }

  predicate OneLineEntry(e: LockPackage) {
    && OneLine(e.name) && OneLine(e.version) && OneLine(e.source) && OneLineOption(e.contentHash)
    && OneLineExtras(e)
  }

  lemma KeyLineIsRead(r: Reader, key: string, value: string)
    requires r.current.Some? && IsPlainKey(key)
    ensures ReadLine(r, Clean(key + " = " + value)) == r.(current := Some(SetField(r.current.value, key, Clean(value))))
  {
    hide Clean, SetField, Trim, SplitOnce, NormalizeKey;
    var rest := KeyLineReads(key, value);
    var line := key + " =" + rest;
    assert line[0] in key && line[0] != '[';
    TrimKey(key);
  }

  lemma TrimKey(key: string)
    requires IsPlainKey(key)
    ensures NormalizeKey(Trim(key + " ")) == key
  {
    NormalizePlainKey(key);
    PlainKeyIsTrimmed(key);
    assert key[|key| - 1] in key;
    TrimPadded("", key, " ");
    assert "" + key + " " == key + " ";
    TrimIdempotent(key);
  }

  lemma PackageLineIsRead(r: Reader)
    ensures ReadLine(r, Clean("[[package]]")) == Reader(r.Finished(), Some(Pin("", "", "", None)))
  {
    hide Clean, SplitOnce, NormalizeKey, SetField;
    PackageLineIsClean();
  }

  lemma PackageLineIsClean()
    ensures Clean("[[package]]") == "[[package]]"
  {
    hide Find, Trim;
    TrimIdempotent("[[package]]");
  }

  lemma ReadOne(r: Reader, line: string)
    ensures ReadLines(r, CleanAll([line])) == ReadLine(r, Clean(line))
  {
    hide ReadLine, Clean;
    assert CleanAll([line])[..0] == [];
    assert ReadLines(r, []) == r;
  }

  lemma ReadMore(r: Reader, a: seq<string>, b: seq<string>)
    ensures ReadLines(r, CleanAll(a + b)) == ReadLines(ReadLines(r, CleanAll(a)), CleanAll(b))
  {
    hide Clean;
    assert CleanAll(a + b) == CleanAll(a) + CleanAll(b);
    ReadLinesConcat(r, CleanAll(a), CleanAll(b));
  }

  /** Reading one `key = value` line after others. */
  lemma ReadKeyLineAfter(r: Reader, a: seq<string>, key: string, value: string, pin: Pin)
    requires ReadLines(r, CleanAll(a)) == Reader(r.Finished(), Some(pin)) && IsPlainKey(key)
    ensures ReadLines(r, CleanAll(a + [key + " = " + value])) ==
            Reader(r.Finished(), Some(SetField(pin, key, Clean(value))))
  {
    hide Clean, SetField, CleanAll, ReadLines, ReadLine;
    ReadMore(r, a, [key + " = " + value]);
    ReadOne(Reader(r.Finished(), Some(pin)), key + " = " + value);
    KeyLineIsRead(Reader(r.Finished(), Some(pin)), key, value);
  }

  /** A line under a key the reader does not know changes nothing. */
  lemma ReadExtraAfter(r: Reader, a: seq<string>, key: string, value: Option<string>, pin: Pin)
    requires ReadLines(r, CleanAll(a)) == Reader(r.Finished(), Some(pin)) && IsPlainKey(key)
    requires key != "name" && key != "version" && key != "source" && key != "content_hash"
    ensures ReadLines(r, CleanAll(a + (if value.Some? then [key + " = " + value.value] else []))) ==
            Reader(r.Finished(), Some(pin))
  {
    hide Clean, CleanAll, ReadLines;
    if value.Some? {
      ReadKeyLineAfter(r, a, key, value.value, pin);
    } else {
      assert a + [] == a;
    }
  }

  lemma EntryIsRead(r: Reader, e: LockPackage)
    ensures ReadLines(r, CleanAll(EntryLines(e))) == Reader(r.Finished(), Some(ReadBack(e)))
  {
    hide Clean, CleanAll, ReadLines, ReadLine, ParseTomlString, Escape, CommaList, Decimal;
    var a0 := ["[[package]]"];
    PackageLineIsRead(r);
    ReadOne(r, "[[package]]");
    var p0 := Pin("", "", "", None);
    ReadKeyLineAfter(r, a0, "name", Quoted(e.name), p0);
    var a1 := a0 + [FieldLine("name", e.name)];
    var p1 := p0.(name := ReadText(e.name));
    ReadKeyLineAfter(r, a1, "version", Quoted(e.version), p1);
    var a2 := a1 + [FieldLine("version", e.version)];
    var p2 := p1.(version := ReadText(e.version));
    ReadKeyLineAfter(r, a2, "source", Quoted(e.source), p2);
    var a3 := a2 + [FieldLine("source", e.source)];
    var p3 := p2.(source := ReadText(e.source));
    var a4 := a3 + OptionalFieldLine("content_hash", e.contentHash);
    var p4 := ReadBack(e);
    if e.contentHash.Some? {
      ReadKeyLineAfter(r, a3, "content_hash", Quoted(e.contentHash.value), p3);
    } else {
      assert a4 == a3;
    }
    ExtraIsRead(r, a4, e, p4);
    assert EntryLines(e) == a4 + ExtraLines(e);
  }

  lemma ExtraIsRead(r: Reader, a: seq<string>, e: LockPackage, pin: Pin)
    requires ReadLines(r, CleanAll(a)) == Reader(r.Finished(), Some(pin))
    ensures ReadLines(r, CleanAll(a + ExtraLines(e))) == Reader(r.Finished(), Some(pin))
  {
    hide Clean, CleanAll, ReadLines, ReadLine, Quoted, CommaList, Decimal, OptionalFieldLine;
    OptionalIsRead(r, a, "language", e.language, pin);
    var a1 := a + OptionalFieldLine("language", e.language);
    OptionalIsRead(r, a1, "compatibility", e.compatibility, pin);
    var a2 := a1 + OptionalFieldLine("compatibility", e.compatibility);
    var schema := if e.manifestSchema.Some? then Some(Decimal(e.manifestSchema.value)) else None;
    ReadExtraAfter(r, a2, "manifest_schema", schema, pin);
    var l3 := if schema.Some? then ["manifest_schema" + " = " + schema.value] else [];
    ExtraEndIsRead(r, a2 + l3, e, pin);
    var last := ["dependencies" + " = " + "[" + CommaList(e.dependencies) + "]", ""];
    assert a + ExtraLines(e) == a2 + l3 + last;
  }

  lemma OptionalIsRead(r: Reader, a: seq<string>, key: string, value: Option<string>, pin: Pin)
    requires ReadLines(r, CleanAll(a)) == Reader(r.Finished(), Some(pin)) && IsPlainKey(key)
    requires key != "name" && key != "version" && key != "source" && key != "content_hash"
    ensures ReadLines(r, CleanAll(a + OptionalFieldLine(key, value))) == Reader(r.Finished(), Some(pin))
  {
    hide Clean, CleanAll, ReadLines, Escape;
    ReadExtraAfter(r, a, key, if value.Some? then Some(Quoted(value.value)) else None, pin);
  }

  lemma ExtraEndIsRead(r: Reader, a: seq<string>, e: LockPackage, pin: Pin)
    requires ReadLines(r, CleanAll(a)) == Reader(r.Finished(), Some(pin))
    ensures ReadLines(r, CleanAll(a + ["dependencies" + " = " + "[" + CommaList(e.dependencies) + "]", ""])) ==
            Reader(r.Finished(), Some(pin))
  {
    hide Clean, CleanAll, ReadLines, ReadLine, CommaList;
    var list := "[" + CommaList(e.dependencies) + "]";
    var d := "dependencies" + " = " + "[" + CommaList(e.dependencies) + "]";
    assert d == "dependencies" + " = " + list;
    ReadExtraAfter(r, a, "dependencies", Some(list), pin);
    ReadMore(r, a + [d], [""]);
    ReadOne(Reader(r.Finished(), Some(pin)), "");
    BlankIsSkipped(Reader(r.Finished(), Some(pin)));
    assert a + [d, ""] == a + [d] + [""];
  }

  lemma BlankIsSkipped(r: Reader)
    ensures ReadLine(r, Clean("")) == r
  {}

  // ---------- the round trip of a whole file ----------

  function ReadBackAll(es: seq<LockPackage>): seq<Pin> {
    seq(|es|, i requires 0 <= i < |es| => ReadBack(es[i]))
  }

  lemma {:induction false} EntriesAreRead(r: Reader, es: seq<LockPackage>)
    ensures ReadLines(r, CleanAll(AllEntryLines(es))).Finished() == r.Finished() + ReadBackAll(es)
  {
    hide Clean, EntryLines, ReadLine, ReadBack;
    if es == [] {
      assert CleanAll([]) == [];
      assert ReadBackAll(es) == [];
    } else {
      var n := |es| - 1;
      EntriesAreRead(r, es[..n]);
      ReadMore(r, AllEntryLines(es[..n]), EntryLines(es[n]));
      var before := ReadLines(r, CleanAll(AllEntryLines(es[..n])));
      EntryIsRead(before, es[n]);
      assert ReadBackAll(es) == ReadBackAll(es[..n]) + [ReadBack(es[n])];
    }
  }

  lemma {:induction false} EntryLinesAreLines(es: seq<LockPackage>)
    requires forall e :: e in es ==> OneLineEntry(e)
    ensures forall line :: line in AllEntryLines(es) ==> OneLine(line)
  {
    hide EntryLines;
    if es != [] {
      EntryLinesAreLines(es[..|es| - 1]);
      OneEntryIsLines(es[|es| - 1]);
    }
  }

  lemma OneEntryIsLines(e: LockPackage)
    requires OneLineEntry(e)
    ensures forall line :: line in EntryLines(e) ==> OneLine(line)
  {
    hide FieldLine, OneLine;
    FieldIsOneLine("name", e.name);
    FieldIsOneLine("version", e.version);
    FieldIsOneLine("source", e.source);
    if e.contentHash.Some? { FieldIsOneLine("content_hash", e.contentHash.value); }
    assert OneLine("[[package]]") by { LiteralsAreOneLine(); }
    ExtraIsOneLine(e);
  }

  lemma ExtraIsOneLine(e: LockPackage)
    requires OneLineEntry(e)
    ensures forall line :: line in ExtraLines(e) ==> OneLine(line)
  {
    hide FieldLine, CommaList, Decimal;
    if e.language.Some? { FieldIsOneLine("language", e.language.value); }
    if e.compatibility.Some? { FieldIsOneLine("compatibility", e.compatibility.value); }
    CommaListIsOneLine(e.dependencies);
  }

  lemma LiteralsAreOneLine()
    ensures OneLine("[[package]]") && OneLine(Note())
  {
    hide Note;
  }

  lemma FieldIsOneLine(key: string, value: string)
    requires IsPlainKey(key) && OneLine(value)
    ensures OneLine(FieldLine(key, value))
  {
    hide Escape;
    assert OneLine(key);
    QuotedIsOneLine(value);
  }

  lemma QuotedIsOneLine(value: string)
    requires OneLine(value)
    ensures OneLine(Quoted(value))
  {
    hide Escape;
    EscapeMembers(value);
  }

  lemma {:induction false} CommaListIsOneLine(values: seq<string>)
    requires forall v :: v in values ==> OneLine(v)
    ensures OneLine(CommaList(values))
  {
    hide Quoted;
    if values != [] {
      QuotedIsOneLine(values[0]);
      CommaListIsOneLine(values[1..]);
    }
  }

  /** Reading a freshly printed lockfile gives one pin per entry, in order, each field as
      `ReadValue` shows it. */
  lemma PrintedEntriesRead(es: seq<LockPackage>)
    requires forall e :: e in es ==> OneLineEntry(e)
    ensures ParsedPackages(Rendered(es)) == ReadBackAll(es)
  {
    hide Clean, AllEntryLines, Header, ReadLine, ReadBack;
    EntryLinesAreLines(es);
    HeaderIsSkipped();
    LinesOfUnlines(Header() + AllEntryLines(es));
    ReadMore(Reader([], None), Header(), AllEntryLines(es));
    EntriesAreRead(Reader([], None), es);
  }

  lemma HeaderIsSkipped()
    ensures ReadLines(Reader([], None), CleanAll(Header())) == Reader([], None)
    ensures forall line :: line in Header() ==> OneLine(line)
  {
    hide Clean, Note, OneLine, SplitOnce, NormalizeKey, SetField, Trim;
    LiteralsAreOneLine();
    NoteIsComment();
    var r := Reader([], None);
    var h := Header();
    var rest := KeyLineReads("version", "1");
    assert OneLine("#" + Note()) && OneLine("") && OneLine(h[2]) by { ShortLinesAreOneLine(); }
    assert CleanAll(h) == ["", "", Clean(h[2]), ""];
    assert CleanAll(h)[..3] == ["", "", Clean(h[2])] && CleanAll(h)[..3][..2] == ["", ""];
    assert ["", ""][..1] == [""] && [""][..0] == [];
  }

  lemma ShortLinesAreOneLine()
    ensures OneLine("#" + Note()) && OneLine("") && OneLine("version" + " = " + "1")
  {
    hide Note;
    LiteralsAreOneLine();
  }

  lemma NoteIsComment()
    ensures Clean("#" + Note()) == "" && Clean("") == ""
  {
    hide Note;
    BeforeAt("", '#', Note());
    assert "" + ['#'] + Note() == "#" + Note();
  }

  function AsPin(e: LockPackage): Pin { Pin(e.name, e.version, e.source, e.contentHash) }

  function AsPins(es: seq<LockPackage>): seq<Pin> {
    seq(|es|, i requires 0 <= i < |es| => AsPin(es[i]))
  }

  predicate PlainEntry(e: LockPackage) {
    && Plain(e.name) && Plain(e.version) && Plain(e.source)
    && (e.contentHash.Some? ==> Plain(e.contentHash.value))
  }

  /** No reader output holds a line break, whatever was read. */
  predicate OneLinePin(p: Pin) {
    OneLine(p.name) && OneLine(p.version) && OneLine(p.source) && OneLineOption(p.contentHash)
  }

  ghost predicate OneLineReader(r: Reader) {
    (forall p :: p in r.done ==> OneLinePin(p)) && (r.current.Some? ==> OneLinePin(r.current.value))
  }

  lemma TrimMembers(s: string)
    requires OneLine(s)
    ensures OneLine(Trim(s)) && OneLineOption(ParseTomlString(s))
  {
    hide Trim;
    var left, right := TrimSplits(s);
  }

  lemma ReadLineIsOneLine(r: Reader, line: string)
    requires OneLineReader(r) && OneLine(line)
    ensures OneLineReader(ReadLine(r, line))
  {
    hide Trim, NormalizeKey, ParseTomlString;
    var split := SplitOnce(line, '=');
    if split.Some? {
      TrimMembers(split.value.1);
      TrimMembers(Trim(split.value.1));
    }
  }

  lemma {:induction false} ReadLinesAreOneLine(lines: seq<string>)
    requires forall line :: line in lines ==> OneLine(line)
    ensures OneLineReader(ReadLines(Reader([], None), lines))
  {
    hide ReadLine, OneLine;
    if lines != [] {
      ReadLinesAreOneLine(lines[..|lines| - 1]);
      ReadLineIsOneLine(ReadLines(Reader([], None), lines[..|lines| - 1]), lines[|lines| - 1]);
    }
  }

  lemma PackagesAreOneLine(source: string)
    ensures forall p :: p in ParsedPackages(source) ==> OneLinePin(p)
  {
    hide Clean, Lines, ReadLines, OneLinePin;
    var lines := Lines(source);
    forall line | line in CleanAll(lines) ensures OneLine(line) {
      var i :| 0 <= i < |lines| && Clean(lines[i]) == line;
      CleanMembers(lines[i]);
    }
    ReadLinesAreOneLine(CleanAll(lines));
  }

  lemma CleanMembers(line: string)
    requires OneLine(line)
    ensures OneLine(Clean(line))
  {
    TrimMembers(Before(line, '#'));
  }

  /** The lockfile round-trips exactly when the four fields of every entry are plain; an
      entry pinned to a git revision has `#` in its source and never does. */
  lemma LockfileRoundTrip(es: seq<LockPackage>)
    requires forall e :: e in es ==> OneLineExtras(e)
    ensures ParsedPackages(Rendered(es)) == AsPins(es) <==> forall e :: e in es ==> PlainEntry(e)
  {
    hide ReadValue, Rendered, ParsedPackages, Plain, OneLine;
    if forall e :: e in es ==> OneLinePin(AsPin(e)) {
      OneLineRoundTrip(es);
    } else {
      var e :| e in es && !OneLinePin(AsPin(e));
      var i :| 0 <= i < |es| && es[i] == e;
      PackagesAreOneLine(Rendered(es));
      assert AsPins(es)[i] == AsPin(e);
      assert AsPin(e) in AsPins(es);
      PlainIsOneLine(e);
    }
  }

  lemma PlainIsOneLine(e: LockPackage)
    ensures PlainEntry(e) ==> OneLinePin(AsPin(e))
  {}

  lemma OneLineRoundTrip(es: seq<LockPackage>)
    requires forall e :: e in es ==> OneLineEntry(e)
    ensures ParsedPackages(Rendered(es)) == AsPins(es) <==> forall e :: e in es ==> PlainEntry(e)
  {
    hide ReadValue, Rendered, ParsedPackages, Plain;
    PrintedEntriesRead(es);
    forall e | e in es ensures ReadBack(e) == AsPin(e) <==> PlainEntry(e) {
      EntryRoundTrip(e);
    }
    if ReadBackAll(es) == AsPins(es) {
      forall e | e in es ensures PlainEntry(e) {
        var i :| 0 <= i < |es| && es[i] == e;
        assert ReadBackAll(es)[i] == AsPins(es)[i];
      }
    }
    if forall e :: e in es ==> PlainEntry(e) {
      assert ReadBackAll(es) == AsPins(es);
    }
  }

  lemma EntryRoundTrip(e: LockPackage)
    requires OneLineEntry(e)
    ensures ReadBack(e) == AsPin(e) <==> PlainEntry(e)
  {
    hide ReadValue, Plain;
    TextRoundTrip(e.name);
    TextRoundTrip(e.version);
    TextRoundTrip(e.source);
    if e.contentHash.Some? { FieldRoundTrip(e.contentHash.value); }
  }

  lemma TextRoundTrip(value: string)
    requires OneLine(value)
    ensures ReadText(value) == value <==> Plain(value)
  {
    hide ReadValue;
    FieldRoundTrip(value);
    if value == "" {
      assert Plain(value);
    }
  }
}
