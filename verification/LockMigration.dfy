/** The lockfile schema line and its migration (`plan_lockfile_source_migration` in `package.rs`). */
module LockMigration {
  import opened Wrappers
  import opened Text
  import opened TomlText
  import opened LockText
  import LockGraph

  const CURRENT_SCHEMA: nat := 1

  function PackageMark(): string { "[[package]]" }
  predicate Marked(line: string) { PackageMark() <= line }

  function SchemaText(): string { "version" + " = " + "1" }

  // ---------- finding the schema line ----------

  datatype LineKind = Skipped | PackageLine | VersionLine(schema: Option<nat>)

  function KindOf(line: string): LineKind {
    if line == "" then Skipped
    else if Marked(line) then PackageLine
    else
      match SplitOnce(line, '=')
      case None => Skipped
      case Some((key, value)) =>
        if NormalizeKey(Trim(key)) == "version" then VersionLine(ParseTomlU32(value)) else Skipped
  }

  datatype Found = NoVersion | BadVersion | Version(index: nat, schema: nat) {
    function Schema(): Option<nat> { if Version? then Some(schema) else None }
  }

  /** The first line that decides, reading cleaned lines from position `i`. */
  function Scan(lines: seq<string>, i: nat): (f: Found)
    requires i <= |lines|
    ensures f.Version? ==> i <= f.index < |lines|
    decreases |lines| - i
  {
    if i == |lines| then NoVersion
    else
      match KindOf(lines[i])
      case Skipped => Scan(lines, i + 1)
      case PackageLine => NoVersion
      case VersionLine(None) => BadVersion
      case VersionLine(Some(schema)) => Version(i, schema)
  }

  function FindSchema(source: string): Found { Scan(CleanAll(Lines(source)), 0) }

  /** `find_lockfile_schema_line`, which does not tell a bad version from none. */
  method FindLockfileSchemaLine(source: string) returns (found: Option<(nat, nat)>)
    ensures found == match FindSchema(source) case Version(i, s) => Some((i, s)) case _ => None
    ensures found.Some? ==> found.value.0 < |Lines(source)|
  {
    hide Lines, Clean, NormalizeKey, Trim, SplitOnce, ParseTomlU32, Marked;
    var lines := Lines(source);
    ghost var cleaned := CleanAll(lines);
    for i := 0 to |lines|
      invariant FindSchema(source) == Scan(cleaned, i)
    {
      var line := Clean(lines[i]);
      if line == "" {
        continue;
      }
      if Marked(line) {
        return None;
      }
      var split := SplitOnce(line, '=');
      if split.None? {
        continue;
      }
      if NormalizeKey(Trim(split.value.0)) == "version" {
        var schema := ParseTomlU32(split.value.1);
        return if schema.Some? then Some((i, schema.value)) else None;
      }
    }
    found := None;
  }

  // ---------- the plan ----------

  datatype Action = UpgradeFromZero | AddSchema
  datatype Plan = Plan(schema: Option<nat>, actions: seq<Action>, source: string)
  datatype MigrationError = FutureSchema(schema: nat)

  function RenderLines(lines: seq<string>): string { EnsureTrailingNewline(Join(lines)) }

  function ActionsFor(found: Found): seq<Action> {
    if !found.Version? then [AddSchema] else if found.schema == 0 then [UpgradeFromZero] else []
  }

  method InsertSchemaHeader(lines: seq<string>) returns (out: seq<string>)
    ensures exists at :: IsInsertionPoint(lines, at) && out == WithHeader(lines, at)
  {
    var at := 0;
    while at < |lines| && !Marked(TrimStart(lines[at]))
      invariant at <= |lines| && forall j :: 0 <= j < at ==> !Marked(TrimStart(lines[j]))
    {
      at := at + 1;
    }
    assert IsInsertionPoint(lines, at);
    out := WithHeader(lines, at);
  }

  ghost predicate IsInsertionPoint(lines: seq<string>, at: nat) {
    && at <= |lines|
    && (forall j :: 0 <= j < at ==> !Marked(TrimStart(lines[j])))
    && (at < |lines| ==> Marked(TrimStart(lines[at])))
  }

  function WithHeader(lines: seq<string>, at: nat): seq<string>
    requires at <= |lines|
  {
    lines[..at] + [SchemaText(), ""] + lines[at..]
  }

  // ---------- blank lines and line ends carry no meaning ----------

  function NonBlank(lines: seq<string>): seq<string> {
    if |lines| == 0 then []
    else if lines[|lines| - 1] == "" then NonBlank(lines[..|lines| - 1])
    else NonBlank(lines[..|lines| - 1]) + [lines[|lines| - 1]]
  }

  lemma {:induction false} NonBlankConcat(a: seq<string>, b: seq<string>)
    ensures NonBlank(a + b) == NonBlank(a) + NonBlank(b)
  {
    if b == [] {
      assert a + b == a;
    } else {
      assert (a + b)[..|a + b| - 1] == a + b[..|b| - 1];
      NonBlankConcat(a, b[..|b| - 1]);
    }
  }

  lemma {:induction false} ReadLinesSkipBlanks(r: Reader, lines: seq<string>)
    ensures ReadLines(r, lines) == ReadLines(r, NonBlank(lines))
  {
    if lines != [] {
      ReadLinesSkipBlanks(r, lines[..|lines| - 1]);
      if lines[|lines| - 1] != "" {
        var n := NonBlank(lines);
        assert n[..|n| - 1] == NonBlank(lines[..|lines| - 1]);
      }
    }
  }

  lemma {:induction false} ScanSkips(a: seq<string>, b: seq<string>, i: nat)
    requires i <= |a| && forall j :: i <= j < |a| ==> KindOf(a[j]).Skipped?
    ensures Scan(a + b, i) == Scan(a + b, |a|)
    decreases |a| - i
  {
    hide KindOf;
    if i < |a| {
      ScanSkips(a, b, i + 1);
    }
  }

  /** What a scan finds depends only on the lines from where it starts, up to the index. */
  lemma {:induction false} ScanShift(a: seq<string>, b: seq<string>, i: nat)
    requires i <= |b|
    ensures var f, g := Scan(a + b, |a| + i), Scan(b, i);
            f == match g case Version(k, s) => Version(|a| + k, s) case _ => g
    decreases |b| - i
  {
    hide KindOf;
    if i < |b| {
      assert (a + b)[|a| + i] == b[i];
      ScanShift(a, b, i + 1);
    }
  }

  /** The kinds of outcome, without the position. */
  function Outcome(f: Found): Found { if f.Version? then Version(0, f.schema) else f }

  lemma {:induction false} ScanSkipsBlanks(lines: seq<string>)
    ensures Outcome(Scan(lines, 0)) == Outcome(Scan(NonBlank(lines), 0))
    decreases |lines|
  {
    hide KindOf;
    if lines != [] {
      var head, tail := lines[..1], lines[1..];
      assert lines == head + tail;
      NonBlankConcat(head, tail);
      ScanSkipsBlanks(tail);
      ScanShift(head, tail, 0);
      assert head[..0] == [];
      if lines[0] == "" {
        assert NonBlank(lines) == NonBlank(tail);
        BlankIsSkippedKind();
      } else {
        assert NonBlank(lines) == head + NonBlank(tail);
        ScanShift(head, NonBlank(tail), 0);
      }
    }
  }

  lemma BlankIsSkippedKind()
    ensures KindOf("").Skipped?
  {}

  lemma {:induction false} JoinSplit(lines: seq<string>)
    requires lines != []
    ensures Join(lines) == Unlines(lines[..|lines| - 1]) + lines[|lines| - 1]
  {
    if |lines| > 1 {
      JoinSplit(lines[1..]);
      assert lines[1..][..|lines| - 2] == lines[..|lines| - 1][1..];
    }
  }

  lemma {:induction false} UnlinesEnds(lines: seq<string>)
    requires lines != []
    ensures EndsWith(Unlines(lines), '\n')
  {
    if |lines| > 1 { UnlinesEnds(lines[1..]); }
  }

  /** The lines that are really printed: `join` drops an empty last line. */
  function Printed(lines: seq<string>): seq<string> {
    if lines == [] then [""]
    else if |lines| > 1 && lines[|lines| - 1] == "" then lines[..|lines| - 1]
    else lines
  }

  lemma RenderLinesIsUnlines(lines: seq<string>)
    requires forall line :: line in lines ==> OneLine(line)
    ensures RenderLines(lines) == Unlines(Printed(lines))
  {
    if lines != [] {
      JoinSplit(lines);
      JoinIsUnlines(lines);
      assert lines[|lines| - 1] in lines;
      if |lines| > 1 {
        UnlinesEnds(lines[..|lines| - 1]);
      }
    }
  }

  /** Printing lines with `join` and reading them again loses blank lines at most. */
  lemma RenderLinesReads(lines: seq<string>)
    requires forall line :: line in lines ==> OneLine(line)
    ensures NonBlank(CleanAll(Lines(RenderLines(lines)))) == NonBlank(CleanAll(lines))
  {
    hide Clean, Lines, Unlines, Join;
    var printed := Printed(lines);
    RenderLinesIsUnlines(lines);
    forall line | line in printed ensures '\n' !in line {
      assert lines != [] ==> line in lines;
    }
    LinesOfUnlines(printed);
    assert CleanAll([""]) == [""] by { NoteIsComment(); }
    assert [""][..0] == [];
    if lines == [] {
      assert CleanAll(lines) == [];
    } else if printed != lines {
      assert CleanAll(lines) == CleanAll(printed) + CleanAll([""]);
      NonBlankConcat(CleanAll(printed), CleanAll([""]));
    }
  }

  /** So the packages and the schema of printed lines are those of the lines. */
  lemma RenderLinesMeaning(lines: seq<string>)
    requires forall line :: line in lines ==> OneLine(line)
    ensures ParsedPackages(RenderLines(lines)) == ReadLines(Reader([], None), CleanAll(lines)).Finished()
    ensures Outcome(FindSchema(RenderLines(lines))) == Outcome(Scan(CleanAll(lines), 0))
  {
    hide CleanAll, Lines, RenderLines, ReadLines, Scan, NonBlank;
    var out := CleanAll(Lines(RenderLines(lines)));
    RenderLinesReads(lines);
    ReadLinesSkipBlanks(Reader([], None), out);
    ReadLinesSkipBlanks(Reader([], None), CleanAll(lines));
    ScanSkipsBlanks(out);
    ScanSkipsBlanks(CleanAll(lines));
  }

  // ---------- edits before the first package ----------

  lemma {:induction false} ScanStops(lines: seq<string>, i: nat) returns (n: nat)
    requires i <= |lines|
    ensures i <= n <= |lines| && forall j :: i <= j < n ==> KindOf(lines[j]).Skipped?
    ensures n < |lines| ==> !KindOf(lines[n]).Skipped?
    ensures Scan(lines, i) == if n == |lines| then NoVersion
                              else match KindOf(lines[n])
                                   case VersionLine(None) => BadVersion
                                   case VersionLine(Some(schema)) => Version(n, schema)
                                   case _ => NoVersion
    decreases |lines| - i
  {
    hide KindOf;
    if i == |lines| || !KindOf(lines[i]).Skipped? {
      n := i;
    } else {
      n := ScanStops(lines, i + 1);
    }
  }

  lemma {:induction false} NothingReadBeforePackages(lines: seq<string>)
    requires forall j :: 0 <= j < |lines| ==> !Marked(lines[j])
    ensures ReadLines(Reader([], None), lines) == Reader([], None)
  {
    if lines != [] {
      NothingReadBeforePackages(lines[..|lines| - 1]);
    }
  }

  lemma MarkedIsPackageLine(line: string)
    ensures Marked(line) <==> KindOf(line).PackageLine?
  {}

  lemma SchemaTextKind()
    ensures KindOf(Clean(SchemaText())) == VersionLine(Some(1)) && !Marked(Clean(SchemaText()))
    ensures OneLine(SchemaText())
  {
    hide Clean, Trim, NormalizeKey, SplitOnce;
    var rest := KeyLineReads("version", "1");
    TrimKey("version");
    OneReads();
    assert Clean(SchemaText())[0] == 'v';
  }

  /** The raw test for a package line agrees with the cleaned one. */
  lemma MarkSeenRaw(line: string)
    ensures Marked(TrimStart(line)) <==> Marked(Clean(line))
  {
    hide PackageMark, Clean, TrimStart;
    MarkIsTrimmed();
    if Marked(Clean(line)) { CleanMarkIsRaw(PackageMark(), line); }
    if Marked(TrimStart(line)) { RawMarkIsClean(PackageMark(), line); }
  }

  lemma MarkIsTrimmed()
    ensures IsMark(PackageMark())
  {}

  /** Replacing the line that declares schema 0. */
  lemma UpgradeEdit(lines: seq<string>, i: nat)
    requires i < |lines| && Scan(CleanAll(lines), 0) == Version(i, 0)
    ensures var out := lines[i := SchemaText()];
            && ReadLines(Reader([], None), CleanAll(out)) == ReadLines(Reader([], None), CleanAll(lines))
            && Scan(CleanAll(out), 0) == Version(i, 1)
  {
    hide Clean, SchemaText, Marked, KindOf, ReadLines, ReadLine;
    var cl, out := CleanAll(lines), CleanAll(lines[i := SchemaText()]);
    var n := ScanStops(cl, 0);
    assert n == i;
    SchemaTextKind();
    forall j | 0 <= j <= i ensures !Marked(cl[j]) && (j < i ==> out[j] == cl[j]) { MarkedIsPackageLine(cl[j]); }
    assert out == cl[..i] + [Clean(SchemaText())] + cl[i + 1..] && cl == cl[..i + 1] + cl[i + 1..];
    NothingReadBeforePackages(cl[..i + 1]);
    NothingReadBeforePackages(out[..i + 1]);
    ReadLinesConcat(Reader([], None), cl[..i + 1], cl[i + 1..]);
    ReadLinesConcat(Reader([], None), out[..i + 1], cl[i + 1..]);
    assert out == out[..i + 1] + cl[i + 1..] && out == cl[..i] + out[i..];
    ScanSkips(cl[..i], out[i..], 0);
  }

  /** Inserting the schema line in front of the first package. */
  lemma InsertEdit(lines: seq<string>, at: nat)
    requires IsInsertionPoint(lines, at) && !Scan(CleanAll(lines), 0).Version?
    ensures var out := CleanAll(WithHeader(lines, at));
            && ReadLines(Reader([], None), out) == ReadLines(Reader([], None), CleanAll(lines))
            && Scan(out, 0).Schema() == (if Scan(CleanAll(lines), 0).BadVersion? then None else Some(1))
            && (Scan(out, 0).BadVersion? <==> Scan(CleanAll(lines), 0).BadVersion?)
  {
    hide *;
    InsertCleaned(lines, at);
    HeaderKinds();
    var cl := CleanAll(lines);
    InsertKeepsPackages(cl, [Clean(SchemaText()), ""], at);
    InsertSetsSchema(cl, Clean(SchemaText()), at);
  }

  /** The insertion point, seen on the cleaned lines. */
  lemma InsertCleaned(lines: seq<string>, at: nat)
    requires IsInsertionPoint(lines, at)
    ensures var cl := CleanAll(lines);
            && at <= |cl| && (forall j :: 0 <= j < at ==> !Marked(cl[j])) && (at < |cl| ==> Marked(cl[at]))
            && CleanAll(WithHeader(lines, at)) == cl[..at] + [Clean(SchemaText()), ""] + cl[at..]
  {
    hide Clean, SchemaText, Marked, TrimStart;
    forall j | 0 <= j < |lines| ensures Marked(TrimStart(lines[j])) <==> Marked(CleanAll(lines)[j]) {
      MarkSeenRaw(lines[j]);
    }
    NoteIsComment();
  }

  lemma HeaderKinds()
    ensures KindOf(Clean(SchemaText())) == VersionLine(Some(1))
    ensures forall j :: 0 <= j < 2 ==> !Marked([Clean(SchemaText()), ""][j])
  {
    hide Clean, SchemaText, Marked, KindOf;
    SchemaTextKind();
    MarkedIsPackageLine("");
    BlankIsSkippedKind();
  }

  lemma InsertSetsSchema(cl: seq<string>, line: string, at: nat)
    requires at <= |cl| && (forall j :: 0 <= j < at ==> !Marked(cl[j])) && (at < |cl| ==> Marked(cl[at]))
    requires KindOf(line) == VersionLine(Some(1)) && !Scan(cl, 0).Version?
    ensures var out := cl[..at] + [line, ""] + cl[at..];
            && Scan(out, 0).Schema() == (if Scan(cl, 0).BadVersion? then None else Some(1))
            && (Scan(out, 0).BadVersion? <==> Scan(cl, 0).BadVersion?)
  {
    hide Marked, KindOf;
    forall j | 0 <= j < |cl| ensures Marked(cl[j]) <==> KindOf(cl[j]).PackageLine? { MarkedIsPackageLine(cl[j]); }
    var out := cl[..at] + [line, ""] + cl[at..];
    var n := ScanStops(cl, 0);
    if Scan(cl, 0).BadVersion? {
      assert n < at;
      forall j | 0 <= j <= n ensures out[j] == cl[j] {}
      ScanReaches(out, 0, n);
    } else {
      assert n == at && out[at] == line;
      forall j | 0 <= j < at ensures out[j] == cl[j] {}
      ScanReaches(out, 0, at);
    }
  }

  lemma {:induction false} ScanReaches(lines: seq<string>, i: nat, n: nat)
    requires i <= n < |lines| && (forall j :: i <= j < n ==> KindOf(lines[j]).Skipped?)
    ensures Scan(lines, i) == Scan(lines, n)
    decreases n - i
  {
    hide KindOf;
    if i < n { ScanReaches(lines, i + 1, n); }
  }

  lemma InsertKeepsPackages(cl: seq<string>, header: seq<string>, at: nat)
    requires at <= |cl| && forall j :: 0 <= j < at ==> !Marked(cl[j])
    requires forall j :: 0 <= j < |header| ==> !Marked(header[j])
    ensures ReadLines(Reader([], None), cl[..at] + header + cl[at..]) == ReadLines(Reader([], None), cl)
  {
    hide Marked, ReadLine, ReadLines;
    NothingReadBeforePackages(cl[..at]);
    NothingReadBeforePackages(cl[..at] + header);
    ReadLinesConcat(Reader([], None), cl[..at], cl[at..]);
    ReadLinesConcat(Reader([], None), cl[..at] + header, cl[at..]);
    assert cl == cl[..at] + cl[at..];
  }

  lemma WithHeaderIsOneLine(lines: seq<string>, at: nat)
    requires at <= |lines| && AllOneLine(lines)
    ensures AllOneLine(WithHeader(lines, at))
  {
    hide SchemaText, AllOneLine;
    PartStaysOneLine(lines, 0, at);
    PartStaysOneLine(lines, at, |lines|);
    assert lines[0..at] == lines[..at] && lines[at..|lines|] == lines[at..];
    HeaderIsOneLine();
    ConcatStaysOneLine(lines[..at], [SchemaText(), ""]);
    ConcatStaysOneLine(lines[..at] + [SchemaText(), ""], lines[at..]);
  }

  lemma HeaderIsOneLine()
    ensures AllOneLine([SchemaText(), ""])
  {
    hide SchemaText, OneLine;
    SchemaTextKind();
    ShortLinesAreOneLine();
  }

  lemma PartStaysOneLine(lines: seq<string>, i: nat, j: nat)
    requires i <= j <= |lines| && AllOneLine(lines)
    ensures AllOneLine(lines[i..j])
  {
    hide OneLine;
  }

  lemma ConcatStaysOneLine(a: seq<string>, b: seq<string>)
    requires AllOneLine(a) && AllOneLine(b)
    ensures AllOneLine(a + b)
  {
    hide OneLine;
  }

  ghost predicate AllOneLine(lines: seq<string>) { forall line :: line in lines ==> OneLine(line) }

  lemma EditsStayOneLine(source: string, i: nat)
    ensures AllOneLine(Lines(source)) && OneLine(SchemaText())
    ensures i < |Lines(source)| ==> AllOneLine(Lines(source)[i := SchemaText()])
  {
    hide Lines, SchemaText;
    SchemaTextKind();
    assert AllOneLine(Lines(source));
    if i < |Lines(source)| { OneMoreLine(Lines(source), i, SchemaText()); }
  }

  lemma OneMoreLine(lines: seq<string>, i: nat, line: string)
    requires i < |lines| && AllOneLine(lines) && OneLine(line)
    ensures AllOneLine(lines[i := line])
  {
    hide OneLine;
  }

  /** Edited lines that read the same print a file with the same packages. */
  lemma EditMeaning(source: string, edited: seq<string>)
    requires AllOneLine(edited)
    requires ReadLines(Reader([], None), CleanAll(edited)) == ReadLines(Reader([], None), CleanAll(Lines(source)))
    ensures ParsedPackages(RenderLines(edited)) == ParsedPackages(source)
    ensures var f, g := FindSchema(RenderLines(edited)), Scan(CleanAll(edited), 0);
            f.Schema() == g.Schema() && ActionsFor(f) == ActionsFor(g)
  {
    hide CleanAll, Lines, RenderLines, ReadLines, Scan;
    RenderLinesMeaning(edited);
  }

  // ---------- the planner ----------

  // ---------- the text itself ----------

  const SCHEMA_LINE := "version = 1"

  /** The old lines, character by character, but for the line that declared schema 0, or with
      the schema and a blank line in front of the first package. */
  ghost predicate IsEdited(before: seq<string>, after: seq<string>, actions: seq<Action>, at: nat) {
    && at <= |before|
    && if actions == [] then after == before
       else if actions == [UpgradeFromZero] then
         && at < |before| && KindOf(Clean(before[at])) == VersionLine(Some(0))
         && after == before[..at] + [SCHEMA_LINE] + before[at + 1..]
       else
         && (forall j :: 0 <= j < at ==> !("[[package]]" <= TrimStart(before[j])))
         && (at < |before| ==> "[[package]]" <= TrimStart(before[at]))
         && after == before[..at] + [SCHEMA_LINE, ""] + before[at..]
  }

  /** Nothing of the text is lost, comments included. */
  ghost predicate KeepsText(source: string, plan: Plan) {
    exists after, at :: IsEdited(Lines(source), after, plan.actions, at) && plan.source == RenderLines(after)
  }

  lemma SchemaTextIsLine()
    ensures SchemaText() == SCHEMA_LINE
  {}

  lemma KeptLines(source: string)
    ensures IsEdited(Lines(source), Lines(source), [], 0)
  {}

  lemma ReplacedLine(source: string, at: nat)
    requires FindSchema(source) == Version(at, 0)
    ensures at < |Lines(source)| && IsEdited(Lines(source), Lines(source)[at := SchemaText()], [UpgradeFromZero], at)
  {
    hide Clean, Lines, KindOf;
    SchemaTextIsLine();
    var cl := CleanAll(Lines(source));
    var n := ScanStops(cl, 0);
    assert n == at && cl[at] == Clean(Lines(source)[at]);
  }

  lemma InsertedLines(lines: seq<string>, at: nat)
    requires IsInsertionPoint(lines, at)
    ensures IsEdited(lines, WithHeader(lines, at), [AddSchema], at)
  {
    hide TrimStart, SchemaText;
    SchemaTextIsLine();
  }

  /** `plan_lockfile_source_migration`.  A plan never changes the packages that are read
      back; its output has the current schema, and so asks for nothing more, unless the
      first `version` line before the packages did not parse. */
  method PlanLockfileSourceMigration(source: string) returns (r: Result<Plan, MigrationError>)
    ensures r.Err? <==> FindSchema(source).Version? && FindSchema(source).schema > CURRENT_SCHEMA
    ensures r.Ok? ==> r.value.schema == FindSchema(source).Schema()
    ensures r.Ok? ==> r.value.actions == ActionsFor(FindSchema(source))
    ensures r.Ok? ==> ParsedPackages(r.value.source) == ParsedPackages(source)
    ensures r.Ok? ==> (FindSchema(r.value.source).Schema() == Some(CURRENT_SCHEMA) <==> !FindSchema(source).BadVersion?)
    ensures r.Ok? ==> (ActionsFor(FindSchema(r.value.source)) == [] <==> !FindSchema(source).BadVersion?)
    ensures r.Ok? ==> KeepsText(source, r.value)
  {
    hide IsEdited, AllOneLine, ParsedPackages, RenderLines, Lines, CleanAll, ReadLines, Scan, SchemaText, TrimStart,
      Marked, WithHeader;
    var found := FindLockfileSchemaLine(source);
    var lines := Lines(source);
    EditsStayOneLine(source, if found.Some? then found.value.0 else 0);
    if found.Some? && found.value.1 == 0 {
      UpgradeEdit(lines, found.value.0);
      ReplacedLine(source, found.value.0);
      lines := lines[found.value.0 := SchemaText()];
      EditMeaning(source, lines);
      r := Ok(Plan(Some(0), [UpgradeFromZero], RenderLines(lines)));
    } else if found.Some? && found.value.1 > CURRENT_SCHEMA {
      return Err(FutureSchema(found.value.1));
    } else if found.Some? {
      EditMeaning(source, lines);
      KeptLines(source);
      r := Ok(Plan(Some(found.value.1), [], RenderLines(lines)));
    } else {
      var more := InsertSchemaHeader(lines);
      ghost var at :| IsInsertionPoint(lines, at) && more == WithHeader(lines, at);
      InsertEdit(lines, at);
      InsertedLines(lines, at);
      WithHeaderIsOneLine(lines, at);
      EditMeaning(source, more);
      r := Ok(Plan(None, [AddSchema], RenderLines(more)));
    }
  }

  /** A freshly printed lockfile is already current. */
  lemma RenderedIsCurrent(es: seq<LockGraph.LockPackage>)
    requires forall e :: e in es ==> OneLineEntry(e)
    ensures FindSchema(Rendered(es)).Schema() == Some(CURRENT_SCHEMA)
  {
    hide Clean, AllEntryLines, Lines, KindOf, Note;
    EntryLinesAreLines(es);
    HeaderIsSkipped();
    BlankIsSkippedKind();
    forall line | line in Header() + AllEntryLines(es) ensures '\n' !in line {
      assert OneLine(line);
    }
    LinesOfUnlines(Header() + AllEntryLines(es));
    var cl := CleanAll(Header() + AllEntryLines(es));
    NoteIsComment();
    SchemaTextKind();
    assert cl[0] == "" && cl[1] == "" && cl[2] == Clean(SchemaText());
    assert Scan(cl, 0) == Scan(cl, 1) == Scan(cl, 2) == Version(2, 1);
  }

  /** A first line `version = x`, whose value is no number, keeps the schema out for good. */
  lemma UnparsedVersionIsBad(value: string)
    requires '\n' !in value && ParseTomlU32(Clean(value)).None?
    ensures FindSchema("version" + " = " + value).BadVersion?
  {
    hide Clean, Lines, Trim, SplitOnce, NormalizeKey, ParseUnsigned;
    var source := "version" + " = " + value;
    VersionIsPlain();
    var rest := KeyLineReads("version", value);
    TrimKey("version");
    OneLineText(source);
    var line := Clean(source);
    assert CleanAll(Lines(source)) == [line];
    assert line[0] == 'v' && !Marked(line);
    TrimTwice(rest);
  }

  lemma VersionIsPlain()
    ensures IsPlainKey("version") && '\n' !in "version = "
  {}

  lemma LetterIsNoVersion()
    ensures FindSchema("version" + " = " + "x").BadVersion?
  {
    hide FindSchema;
    TrimIdempotent("x");
    assert Clean("x") == "x" && ParseTomlU32("x").None?;
    UnparsedVersionIsBad("x");
  }
}
