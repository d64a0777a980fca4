/** The lines of a lock entry that the lockfile's own reader skips, read with the project's TOML
    helpers (`package.rs`): a value under a key, and an array of strings. */
module LockExtras {
  import opened Wrappers
  import opened Text
  import opened TomlText
  import opened LockGraph
  import opened LockText

  // ---------- arrays of strings ----------

  datatype Items = Items(found: seq<string>, current: string, inString: bool, escaped: bool) {
    /** Close the current item, if there is any. */
    function Cut(): Items {
      this.(found := if Trim(current) != "" then found + [Trim(current)] else found, current := "")
    }

    function Step(c: char): Items {
      if escaped then this.(current := current + [c], escaped := false)
      else if c == '\\' && inString then this.(current := current + [c], escaped := true)
      else if c == '"' then this.(current := current + [c], inString := !inString)
      else if c == ',' && !inString then Cut()
      else this.(current := current + [c])
    }
  }

  function Scan(s: Items, text: string): Items {
    if text == "" then s else Scan(s, text[..|text| - 1]).Step(text[|text| - 1])
  }

  const NO_ITEMS := Items([], "", false, false)

  /** `split_toml_array_items`. */
  method SplitItems(inner: string) returns (items: seq<string>)
    ensures items == Scan(NO_ITEMS, inner).Cut().found
  {
    hide Trim;
    items := [];
    var current, inString, escaped := "", false, false;
    for i := 0 to |inner|
      invariant Scan(NO_ITEMS, inner[..i]) == Items(items, current, inString, escaped)
    {
      assert inner[..i + 1][..i] == inner[..i];
      var c := inner[i];
      if escaped {
        current := current + [c];
        escaped := false;
        continue;
      }
      if c == '\\' && inString {
        current := current + [c];
        escaped := true;
        continue;
      }
      if c == '"' {
        inString := !inString;
        current := current + [c];
        continue;
      }
      if c == ',' && !inString {
        var item := Trim(current);
        if item != "" {
          items := items + [item];
        }
        current := "";
        continue;
      }
      current := current + [c];
    }
    assert inner[..|inner|] == inner;
    var item := Trim(current);
    if item != "" {
      items := items + [item];
    }
  }

  /** The items that are strings. */
  function Strings(items: seq<string>): seq<string> {
    if items == [] then []
    else
      var last := ParseTomlString(items[|items| - 1]);
      Strings(items[..|items| - 1]) + if last.Some? then [last.value] else []
  }

  /** `parse_toml_string_array`. */
  function ParseArray(value: string): seq<string> {
    var v := Trim(value);
    if |v| < 2 || v[0] != '[' || v[|v| - 1] != ']' then []
    else Strings(Scan(NO_ITEMS, v[1..|v| - 1]).Cut().found)
  }

  // ---------- a printed array reads back ----------

  lemma {:induction false} ScanConcat(s: Items, a: string, b: string)
    ensures Scan(s, a + b) == Scan(Scan(s, a), b)
  {
    if b == "" {
      assert a + b == a;
    } else {
      assert (a + b)[..|a + b| - 1] == a + b[..|b| - 1];
      ScanConcat(s, a, b[..|b| - 1]);
    }
  }

  lemma {:induction false} ScanInside(s: Items, text: string)
    requires s.inString && !s.escaped && '"' !in text && '\\' !in text
    ensures Scan(s, text) == s.(current := s.current + text)
  {
    if text == "" {
      assert s.current + text == s.current;
    } else {
      var front := text[..|text| - 1];
      assert text[|text| - 1] in text && forall c :: c in front ==> c in text;
      ScanInside(s, front);
      assert s.current + text == s.current + front + [text[|text| - 1]];
    }
  }

  lemma PlainQuoted(value: string)
    requires Plain(value)
    ensures Quoted(value) == "\"" + value + "\"" && ParseTomlString(Quoted(value)) == Some(value)
    ensures Trim(Quoted(value)) == Quoted(value) && Trim(" " + Quoted(value)) == Quoted(value)
  {
    EscapeMembers(value);
    var q := Quoted(value);
    assert !IsWhitespace('"');
    TrimIdempotent(q);
    BlankIsWhitespace();
    TrimPadded(" ", q, "");
    assert " " + q + "" == " " + q;
    assert q[1..|q| - 1] == value;
  }

  lemma ScanOne(s: Items, c: char)
    ensures Scan(s, [c]) == s.Step(c)
  {
    assert [c][..0] == "";
  }

  lemma ScanQuoted(s: Items, value: string)
    requires Plain(value) && !s.inString && !s.escaped
    ensures Scan(s, Quoted(value)) == s.(current := s.current + Quoted(value))
  {
    hide Scan, Plain, Trim;
    PlainQuoted(value);
    var open := s.(current := s.current + "\"", inString := true);
    ScanConcat(s, "\"" + value, "\"");
    ScanConcat(s, "\"", value);
    ScanOne(s, '"');
    assert '"' !in value && '\\' !in value by { PlainHasNoQuote(value); }
    ScanInside(open, value);
    ScanOne(open.(current := open.current + value), '"');
    assert s.current + "\"" + value + "\"" == s.current + ("\"" + value + "\"");
  }

  lemma PlainHasNoQuote(value: string)
    requires Plain(value)
    ensures '"' !in value && '\\' !in value
  {}

  /** Items so far and a current one that is `pad` and a value: scanning the rest of a list. */
  lemma {:induction false} ScanList(found: seq<string>, pad: string, values: seq<string>)
    requires values != [] && (pad == "" || pad == " ") && forall v :: v in values ==> Plain(v)
    ensures Scan(Items(found, pad, false, false), CommaList(values)).Cut().found == found + QuotedAll(values)
    decreases |values|
  {
    hide Scan, Plain, Quoted, Trim;
    var s := Items(found, pad, false, false);
    ScanQuoted(s, values[0]);
    PlainQuoted(values[0]);
    var after := s.(current := pad + Quoted(values[0]));
    PaddedIsTrimmed(pad, values[0]);
    if |values| == 1 {
      assert QuotedAll(values) == [Quoted(values[0])];
    } else {
      var rest := CommaList(values[1..]);
      ScanConcat(s, Quoted(values[0]) + ", ", rest);
      ScanConcat(s, Quoted(values[0]), ", ");
      assert ", " == [','] + [' '];
      ScanConcat(after, [','], [' ']);
      ScanOne(after, ',');
      ScanOne(after.Cut(), ' ');
      assert "" + [' '] == " ";
      ScanList(found + [Quoted(values[0])], " ", values[1..]);
      assert QuotedAll(values) == [Quoted(values[0])] + QuotedAll(values[1..]);
      assert found + QuotedAll(values) == found + [Quoted(values[0])] + QuotedAll(values[1..]);
    }
  }

  lemma PaddedIsTrimmed(pad: string, value: string)
    requires (pad == "" || pad == " ") && Plain(value)
    ensures Trim(pad + Quoted(value)) == Quoted(value) != ""
  {
    PlainQuoted(value);
    assert "" + Quoted(value) == Quoted(value);
  }

  function QuotedAll(values: seq<string>): seq<string> {
    seq(|values|, i requires 0 <= i < |values| => Quoted(values[i]))
  }

  lemma {:induction false} StringsOfQuoted(values: seq<string>)
    requires forall v :: v in values ==> Plain(v)
    ensures Strings(QuotedAll(values)) == values
  {
    hide Quoted, ParseTomlString, Plain;
    if values != [] {
      var n := |values| - 1;
      StringsOfQuoted(values[..n]);
      PlainQuoted(values[n]);
      assert QuotedAll(values)[..n] == QuotedAll(values[..n]);
      assert values == values[..n] + [values[n]];
    }
  }

  lemma ArrayRoundTrip(values: seq<string>)
    requires forall v :: v in values ==> Plain(v)
    ensures ParseArray(ArrayText(values)) == values && Clean(ArrayText(values)) == ArrayText(values)
  {
    hide Scan, Trim, Plain, CommaList;
    var text := ArrayText(values);
    ArrayIsClean(values);
    assert text[1..|text| - 1] == CommaList(values);
    if values == [] {
      assert CommaList(values) == "" by { NoValues(); }
      NothingScanned();
    } else {
      ScanList([], "", values);
      StringsOfQuoted(values);
      assert [] + QuotedAll(values) == QuotedAll(values);
    }
  }

  lemma NoValues()
    ensures CommaList([]) == ""
  {}

  lemma NothingScanned()
    ensures Scan(NO_ITEMS, "").Cut().found == []
  {
    TrimIdempotent("");
  }

  function ArrayText(values: seq<string>): string { "[" + CommaList(values) + "]" }

  lemma {:induction false} CommaListHasNoHash(values: seq<string>)
    requires forall v :: v in values ==> Plain(v)
    ensures '#' !in CommaList(values)
  {
    hide Plain;
    if values != [] {
      QuotedHasNoHash(values[0]);
      CommaListHasNoHash(values[1..]);
    }
  }

  lemma QuotedHasNoHash(value: string)
    requires Plain(value)
    ensures '#' !in Quoted(value)
  {
    EscapeMembers(value);
  }

  lemma ArrayIsClean(values: seq<string>)
    requires forall v :: v in values ==> Plain(v)
    ensures Clean(ArrayText(values)) == ArrayText(values) && Trim(ArrayText(values)) == ArrayText(values)
  {
    hide Plain, CommaList;
    CommaListHasNoHash(values);
    var text := ArrayText(values);
    assert !IsWhitespace('[') && !IsWhitespace(']');
    assert '#' !in text;
    TrimIdempotent(text);
  }

  // ---------- the lines of an entry ----------

  function KeyValue(line: string): Option<(string, string)> {
    match SplitOnce(line, '=')
    case None => None
    case Some((key, value)) => Some((NormalizeKey(Trim(key)), Trim(value)))
  }

  /** The value of the first line with this key. */
  function Lookup(lines: seq<string>, key: string): Option<string> {
    if lines == [] then None
    else
      var first := KeyValue(Clean(lines[0]));
      if first.Some? && first.value.0 == key then Some(first.value.1) else Lookup(lines[1..], key)
  }

  lemma {:induction false} LookupConcat(a: seq<string>, b: seq<string>, key: string)
    ensures Lookup(a + b, key) == if Lookup(a, key).Some? then Lookup(a, key) else Lookup(b, key)
  {
    hide KeyValue, Clean;
    if a == [] {
      assert a + b == b;
    } else {
      assert (a + b)[1..] == a[1..] + b;
      LookupConcat(a[1..], b, key);
    }
  }

  lemma LookupOne(k: string, value: string, key: string)
    requires IsPlainKey(k)
    ensures Lookup([k + " = " + value], key) == if k == key then Some(Clean(value)) else None
  {
    hide Clean, Trim, SplitOnce, NormalizeKey;
    var rest := KeyLineReads(k, value);
    TrimKey(k);
    assert [k + " = " + value][1..] == [];
    assert Lookup([], key) == None;
  }

  lemma LookupNothing(line: string, key: string)
    requires '=' !in Clean(line)
    ensures Lookup([line], key) == None
  {
    assert [line][1..] == [];
  }

  lemma KeysArePlain()
    ensures IsPlainKey("name") && IsPlainKey("version") && IsPlainKey("source") && IsPlainKey("content_hash")
    ensures IsPlainKey("language") && IsPlainKey("compatibility") && IsPlainKey("manifest_schema")
    ensures IsPlainKey("dependencies")
  {
    hide *;
    FirstKeysArePlain();
    MoreKeysArePlain();
    LastKeysArePlain();
  }

  lemma FirstKeysArePlain()
    ensures IsPlainKey("name") && IsPlainKey("version") && IsPlainKey("source")
  {}

  lemma MoreKeysArePlain()
    ensures IsPlainKey("content_hash") && IsPlainKey("language") && IsPlainKey("compatibility")
  {}

  lemma LastKeysArePlain()
    ensures IsPlainKey("manifest_schema") && IsPlainKey("dependencies")
  {}

  predicate PlainOption(value: Option<string>) { value.Some? ==> Plain(value.value) }

  predicate PlainExtras(e: LockPackage) {
    && PlainOption(e.language) && PlainOption(e.compatibility) && forall d :: d in e.dependencies ==> Plain(d)
  }

  function CleanOption(value: Option<string>): Option<string> {
    if value.None? then None else Some(Clean(Quoted(value.value)))
  }

  lemma LookupOptional(k: string, value: Option<string>, key: string)
    requires IsPlainKey(k)
    ensures Lookup(OptionalFieldLine(k, value), key) == if k == key then CleanOption(value) else None
  {
    hide Clean, Quoted, Lookup;
    if value.Some? {
      LookupOne(k, Quoted(value.value), key);
    } else {
      assert Lookup([], key) == None by { LookupEmpty(key); }
    }
  }

  lemma LookupEmpty(key: string)
    ensures Lookup([], key) == None
  {}

  function SchemaLine(schema: Option<nat>): seq<string> {
    if schema.Some? then ["manifest_schema" + " = " + Decimal(schema.value)] else []
  }

  lemma LookupSchema(schema: Option<nat>, key: string)
    ensures Lookup(SchemaLine(schema), key) ==
            if key == "manifest_schema" && schema.Some? then Some(Clean(Decimal(schema.value))) else None
  {
    hide Clean, Decimal, Lookup;
    KeysArePlain();
    if schema.Some? { LookupOne("manifest_schema", Decimal(schema.value), key); } else { LookupEmpty(key); }
  }

  /** What each of the skipped keys holds in the lines of an entry. */
  lemma LookupExtra(e: LockPackage, key: string)
    requires key in ["language", "compatibility", "manifest_schema", "dependencies"]
    ensures Lookup(EntryLines(e), key) ==
            match key
            case "language" => CleanOption(e.language)
            case "compatibility" => CleanOption(e.compatibility)
            case "manifest_schema" =>
              if e.manifestSchema.Some? then Some(Clean(Decimal(e.manifestSchema.value))) else None
            case _ => Some(Clean(ArrayText(e.dependencies)))
  {
    hide Clean, Decimal, Lookup, OptionalFieldLine, CommaList, Quoted;
    KeysArePlain();
    var l1, l2 := OptionalFieldLine("language", e.language), OptionalFieldLine("compatibility", e.compatibility);
    var l3, l4 := SchemaLine(e.manifestSchema), ["dependencies" + " = " + ArrayText(e.dependencies)];
    var hash := OptionalFieldLine("content_hash", e.contentHash);
    var head := ["[[package]]", FieldLine("name", e.name), FieldLine("version", e.version),
                 FieldLine("source", e.source)];
    assert l4[0] == "dependencies" + " = " + "[" + CommaList(e.dependencies) + "]";
    assert ExtraLines(e) == l1 + l2 + l3 + [l4[0], ""];
    assert EntryLines(e) == head + (hash + (l1 + (l2 + (l3 + (l4 + [""])))));
    HeadHasNoExtra(e, key);
    LookupConcat(head, hash + (l1 + (l2 + (l3 + (l4 + [""])))), key);
    LookupOptional("content_hash", e.contentHash, key);
    LookupConcat(hash, l1 + (l2 + (l3 + (l4 + [""]))), key);
    LookupOptional("language", e.language, key);
    LookupConcat(l1, l2 + (l3 + (l4 + [""])), key);
    LookupOptional("compatibility", e.compatibility, key);
    LookupConcat(l2, l3 + (l4 + [""]), key);
    LookupSchema(e.manifestSchema, key);
    LookupConcat(l3, l4 + [""], key);
    LookupOne("dependencies", ArrayText(e.dependencies), key);
    LookupConcat(l4, [""], key);
    NoteIsComment();
    LookupNothing("", key);
  }

  lemma HeadHasNoExtra(e: LockPackage, key: string)
    requires key in ["language", "compatibility", "manifest_schema", "dependencies"]
    ensures Lookup(["[[package]]", FieldLine("name", e.name), FieldLine("version", e.version),
                    FieldLine("source", e.source)], key) == None
  {
    hide Clean, Lookup, Quoted;
    KeysArePlain();
    var a, b := FieldLine("name", e.name), FieldLine("version", e.version);
    var c := FieldLine("source", e.source);
    PackageLineIsClean();
    LookupNothing("[[package]]", key);
    LookupOne("name", Quoted(e.name), key);
    LookupOne("version", Quoted(e.version), key);
    LookupOne("source", Quoted(e.source), key);
    LookupConcat(["[[package]]"], [a], key);
    LookupConcat(["[[package]]"] + [a], [b], key);
    LookupConcat(["[[package]]"] + [a] + [b], [c], key);
    assert ["[[package]]"] + [a] + [b] + [c] == ["[[package]]", a, b, c];
  }

  lemma DecimalIsClean(n: nat)
    requires n <= U32_MAX
    ensures ParseTomlU32(Clean(Decimal(n))) == Some(n)
  {
    var s := Decimal(n);
    assert s[0] in s && s[|s| - 1] in s && '#' !in s;
    assert !IsWhitespace(s[0]) && !IsWhitespace(s[|s| - 1]);
    TrimIdempotent(s);
  }

  lemma PlainIsClean(value: string)
    requires Plain(value)
    ensures ParseTomlString(Clean(Quoted(value))) == Some(value)
  {
    assert OneLine(value);
    FieldRoundTrip(value);
  }

  /** A printed entry holds, under their keys, the language, the compatibility and the manifest
      schema of the package, each only if it has one, and its dependencies in order. */
  lemma ExtrasReadBack(e: LockPackage)
    requires PlainExtras(e) && (e.manifestSchema.Some? ==> e.manifestSchema.value <= U32_MAX)
    ensures var language := Lookup(EntryLines(e), "language");
            if e.language.None? then language == None
            else language.Some? && ParseTomlString(language.value) == e.language
    ensures var compatibility := Lookup(EntryLines(e), "compatibility");
            if e.compatibility.None? then compatibility == None
            else compatibility.Some? && ParseTomlString(compatibility.value) == e.compatibility
    ensures var schema := Lookup(EntryLines(e), "manifest_schema");
            if e.manifestSchema.None? then schema == None
            else schema.Some? && ParseTomlU32(schema.value) == e.manifestSchema
    ensures var dependencies := Lookup(EntryLines(e), "dependencies");
            dependencies.Some? && ParseArray(dependencies.value) == e.dependencies
  {
    hide Clean, Decimal, Lookup, EntryLines, Quoted, ParseTomlString, ParseTomlU32, ParseArray, ArrayText, Plain;
    LookupExtra(e, "language");
    LookupExtra(e, "compatibility");
    LookupExtra(e, "manifest_schema");
    LookupExtra(e, "dependencies");
    if e.language.Some? { PlainIsClean(e.language.value); }
    if e.compatibility.Some? { PlainIsClean(e.compatibility.value); }
    if e.manifestSchema.Some? { DecimalIsClean(e.manifestSchema.value); }
    ArrayRoundTrip(e.dependencies);
  }
}
