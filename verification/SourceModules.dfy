/** The `module` line of a source file and its insertion (`migration.rs`). */
module SourceModules {
  import opened Text
  import opened Names

  /** A trimmed line that is neither blank nor a comment. */
  predicate IsSignificant(line: string) { line != "" && !("//" <= line) }

  /** `module` as a word of its own, or qualified. */
  predicate IsModuleLine(line: string) {
    "module" <= line && |line| > 6 && (IsWhitespace(line[6]) || line[6] == '.')
  }

  function TrimAll(lines: seq<string>): (r: seq<string>)
    ensures |r| == |lines|
  {
    seq(|lines|, i requires 0 <= i < |lines| => Trim(lines[i]))
  }

  /** The first significant line, or the number of lines. */
  function FirstSignificant(lines: seq<string>): (i: nat)
    ensures i <= |lines| && (i < |lines| ==> IsSignificant(lines[i]))
    ensures forall j :: 0 <= j < i ==> !IsSignificant(lines[j])
  {
    if lines == [] || IsSignificant(lines[0]) then 0 else 1 + FirstSignificant(lines[1..])
  }

  lemma FirstSignificantIs(lines: seq<string>, i: nat)
    requires i <= |lines| && (i < |lines| ==> IsSignificant(lines[i]))
    requires forall j :: 0 <= j < i ==> !IsSignificant(lines[j])
    ensures FirstSignificant(lines) == i
  {
    hide IsSignificant;
  }

  /** `has_explicit_module_declaration`. */
  predicate HasModule(source: string) {
    var lines := TrimAll(Lines(source));
    var i := FirstSignificant(lines);
    i < |lines| && IsModuleLine(lines[i])
  }

  function ModuleLine(modulePath: string): string { "module " + modulePath }

  /** The lines with the declaration in front of the first significant one. */
  function WithModule(lines: seq<string>, at: nat, modulePath: string): seq<string>
    requires at <= |lines|
  {
    lines[..at] + [ModuleLine(modulePath)] + (if at < |lines| then [""] else []) + lines[at..]
  }

  /** `insert_module_declaration`: nothing but the declaration, and a blank line before what
      follows it, is added. */
  method InsertModuleDeclaration(source: string, modulePath: string) returns (out: string)
    ensures out == Unlines(WithModule(Lines(source), FirstSignificant(TrimAll(Lines(source))), modulePath))
    ensures exists at :: IsInserted(Lines(source), at, modulePath, out)
  {
    hide IsInserted, IsSignificant, Lines, Trim, Unlines;
    var lines := Lines(source);
    ghost var trimmed := TrimAll(lines);
    var at := 0;
    while at < |lines| && !IsSignificant(Trim(lines[at]))
      invariant at <= |lines| && forall j :: 0 <= j < at ==> !IsSignificant(trimmed[j])
    {
      at := at + 1;
    }
    FirstSignificantIs(trimmed, at);
    out := PrintLines(lines[..at]);
    out := out + ModuleLine(modulePath) + "\n";
    ghost var head := lines[..at] + [ModuleLine(modulePath)];
    UnlinesSnoc(lines[..at], ModuleLine(modulePath));
    if at < |lines| {
      UnlinesSnoc(head, "");
      out := out + "\n";
      head := head + [""];
    }
    UnlinesConcat(head, lines[at..]);
    var rest := PrintLines(lines[at..]);
    out := out + rest;
    assert WithModule(lines, at, modulePath) == head + lines[at..];
    DeclarationIsInserted(lines, at, modulePath);
  }

  /** The old lines, character by character, with the declaration in front of the first one that
      is neither blank nor a comment, and a blank line between the two. */
  ghost predicate IsInserted(lines: seq<string>, at: nat, modulePath: string, out: string) {
    && at <= |lines|
    && (forall j :: 0 <= j < at ==> Trim(lines[j]) == "" || "//" <= Trim(lines[j]))
    && (at < |lines| ==> Trim(lines[at]) != "" && !("//" <= Trim(lines[at])))
    && out == Unlines(lines[..at] + ["module " + modulePath] + (if at < |lines| then [""] else []) + lines[at..])
  }

  lemma DeclarationIsInserted(lines: seq<string>, at: nat, modulePath: string)
    requires at <= |lines| && (forall j :: 0 <= j < at ==> !IsSignificant(TrimAll(lines)[j]))
    requires at < |lines| ==> IsSignificant(Trim(lines[at]))
    ensures IsInserted(lines, at, modulePath, Unlines(WithModule(lines, at, modulePath)))
  {
    hide Unlines, Trim;
    forall j | 0 <= j < at ensures Trim(lines[j]) == "" || "//" <= Trim(lines[j]) {
      assert !IsSignificant(TrimAll(lines)[j]);
    }
  }

  method PrintLines(lines: seq<string>) returns (out: string)
    ensures out == Unlines(lines)
  {
    out := "";
    for i := 0 to |lines|
      invariant out == Unlines(lines[..i])
    {
      UnlinesSnoc(lines[..i], lines[i]);
      assert lines[..i + 1] == lines[..i] + [lines[i]];
      out := out + lines[i] + "\n";
    }
    assert lines[..|lines|] == lines;
  }

  lemma UnlinesSnoc(lines: seq<string>, line: string)
    ensures Unlines(lines + [line]) == Unlines(lines) + line + "\n"
  {
    UnlinesConcat(lines, [line]);
    assert [line][1..] == [];
    assert Unlines([line]) == line + "\n";
  }

  // ---------- what the edited text reads as ----------

  lemma TrimIgnoresCr(line: string)
    ensures Trim(StripCr(line)) == Trim(line)
  {
    hide Trim, IsWhitespace;
    if EndsWith(line, '\r') {
      var l := line[..|line| - 1];
      assert line == l + "\r";
      CrIsSpace();
      TrimIgnoresTail(l, "\r");
    }
  }

  lemma CrIsSpace()
    ensures AllWhitespace("\r") && AllWhitespace(" ") && !IsWhitespace('m') && !IsWhitespace('e')
  {}

  lemma TrimAllCons(line: string, lines: seq<string>)
    ensures TrimAll([line] + lines) == [Trim(line)] + TrimAll(lines)
  {
    hide Trim;
  }

  lemma TrimAllConcat(a: seq<string>, b: seq<string>)
    ensures TrimAll(a + b) == TrimAll(a) + TrimAll(b)
  {
    hide Trim;
  }

  lemma {:induction false} UnlinesTrimmed(lines: seq<string>)
    requires forall line :: line in lines ==> '\n' !in line
    ensures TrimAll(Lines(Unlines(lines))) == TrimAll(lines)
  {
    hide Trim, Lines, TrimAll;
    if lines == [] {
      NoLines();
    } else {
      UnlinesTrimmed(lines[1..]);
      LinesCons(lines[0], Unlines(lines[1..]));
      TrimIgnoresCr(lines[0]);
      TrimAllCons(StripCr(lines[0]), Lines(Unlines(lines[1..])));
      TrimAllCons(lines[0], lines[1..]);
      assert [lines[0]] + lines[1..] == lines;
    }
  }

  lemma NoLines()
    ensures TrimAll(Lines("")) == [] && TrimAll([]) == [] && TrimAll([""]) == [""]
  {}

  /** The edited file has the old lines, the declaration, and a blank line if more follows. */
  lemma InsertedReads(source: string, modulePath: string)
    requires '\n' !in modulePath
    ensures var lines := TrimAll(Lines(source));
            var at := FirstSignificant(lines);
            TrimAll(Lines(Unlines(WithModule(Lines(source), at, modulePath)))) ==
            lines[..at] + [Trim(ModuleLine(modulePath))] + (if at < |lines| then [""] else []) + lines[at..]
  {
    hide Trim, Lines, Unlines, IsSignificant, FirstSignificant;
    var raw := Lines(source);
    var at := FirstSignificant(TrimAll(raw));
    var middle := [ModuleLine(modulePath)] + if at < |raw| then [""] else [];
    var out := WithModule(raw, at, modulePath);
    assert out == raw[..at] + middle + raw[at..];
    forall line | line in out ensures '\n' !in line {
      assert line in raw || line in middle;
    }
    UnlinesTrimmed(out);
    TrimAllConcat(raw[..at] + middle, raw[at..]);
    TrimAllConcat(raw[..at], middle);
    TrimAllCons(ModuleLine(modulePath), if at < |raw| then [""] else []);
    NoLines();
    assert [ModuleLine(modulePath)] + (if at < |raw| then [""] else []) == middle;
    assert TrimAll(raw[..at]) == TrimAll(raw)[..at] && TrimAll(raw[at..]) == TrimAll(raw)[at..];
  }

  lemma TrimmedModuleLine(modulePath: string)
    ensures AllWhitespace(modulePath) ==> Trim(ModuleLine(modulePath)) == "module"
    ensures !AllWhitespace(modulePath) ==> IsModuleLine(Trim(ModuleLine(modulePath)))
    ensures IsSignificant(Trim(ModuleLine(modulePath)))
  {
    hide Trim, IsWhitespace;
    var left, right := TrimSplits(modulePath);
    CrIsSpace();
    if Trim(modulePath) == "" {
      assert modulePath == left + right;
      assert ModuleLine(modulePath) == "" + "module" + (" " + modulePath);
      TrimPadded("", "module", " " + modulePath);
    } else {
      var core := "module" + (" " + left + Trim(modulePath));
      assert ModuleLine(modulePath) == "" + core + right;
      assert core[|core| - 1] == Trim(modulePath)[|Trim(modulePath)| - 1];
      TrimPadded("", core, right);
      assert core[6] == ' ' && ' ' in " ";
      assert Trim(modulePath)[0] in modulePath;
    }
  }

  /** The inserted declaration is found again exactly if the module path is not blank. */
  lemma InsertedIsFound(source: string, modulePath: string)
    requires '\n' !in modulePath
    ensures var out := Unlines(WithModule(Lines(source), FirstSignificant(TrimAll(Lines(source))), modulePath));
            HasModule(out) <==> !AllWhitespace(modulePath)
  {
    hide Trim, Lines, Unlines, IsSignificant, IsWhitespace, FirstSignificant, TrimAll;
    var lines := TrimAll(Lines(source));
    var at := FirstSignificant(lines);
    var out := Unlines(WithModule(Lines(source), at, modulePath));
    InsertedReads(source, modulePath);
    TrimmedModuleLine(modulePath);
    FirstSignificantIs(TrimAll(Lines(out)), at);
  }

  // ---------- the module path ----------

  /** `join(".")`, or `main` when nothing is left. */
  function ModulePathOf(components: seq<string>): string {
    if components == [] then "main" else JoinWords(Sanitized(components), '.')
  }

  function Sanitized(components: seq<string>): seq<string> {
    seq(|components|, i requires 0 <= i < |components| => ModuleComponentOf(components[i]))
  }

  /** The tail of `source_module_path`: no sanitized component is empty, so the filter the
      program applies removes none. */
  method SourceModulePath(components: seq<string>) returns (path: string)
    ensures path == ModulePathOf(components)
  {
    hide ModuleComponentOf, JoinWords;
    var sanitized: seq<string> := [];
    for i := 0 to |components|
      invariant sanitized == Sanitized(components)[..i]
    {
      var component := SanitizeModuleComponent(components[i]);
      ModuleComponentIsIdentifier(components[i]);
      if component != "" {
        sanitized := sanitized + [component];
      }
    }
    assert sanitized == Sanitized(components);
    if sanitized == [] {
      sanitized := ["main"];
      JoinOne("main", '.');
    }
    path := JoinWords(sanitized, '.');
  }

  /** Every module path is identifiers separated by single dots. */
  lemma ModulePathIsDotted(components: seq<string>)
    ensures var path := ModulePathOf(components);
            path != "" && '\n' !in path && !AllWhitespace(path) && forall w :: w in Words(path, '.') ==> IsIdentifier(w)
  {
    hide ModuleComponentOf, JoinWords, Words, IsWhitespace;
    var words := if components == [] then ["main"] else Sanitized(components);
    var path := ModulePathOf(components);
    if components == [] { JoinOne("main", '.'); }
    forall w | w in words ensures IsIdentifier(w) {
      if components != [] {
        var i :| 0 <= i < |components| && w == ModuleComponentOf(components[i]);
        ModuleComponentIsIdentifier(components[i]);
      }
    }
    var allowed := LOWER_ALNUM + {'_'};
    IdentifiersAreWords(words, allowed);
    WordsOfJoined(words, '.', allowed);
    JoinedEnds(words, '.', allowed);
    JoinedCharacters(words, '.', allowed);
    assert words[0] in words;
    LettersAreNoSpace(path[0]);
    assert path[0] in path;
  }

  lemma IdentifiersAreWords(words: seq<string>, allowed: set<char>)
    requires allowed == LOWER_ALNUM + {'_'} && forall w :: w in words ==> IsIdentifier(w)
    ensures AreWords(words, '.', allowed)
  {
    forall w | w in words ensures IsWord(w, '.', allowed) {
      assert IsIdentifier(w);
    }
  }

  lemma LettersAreNoSpace(c: char)
    requires IsLower(c)
    ensures !IsWhitespace(c)
  {}

  // ---------- rewriting a file ----------

  /** The module part of `rewrite_source_file`. */
  method RewriteModule(source: string, modulePath: string) returns (out: string)
    requires '\n' !in modulePath && !AllWhitespace(modulePath)
    ensures HasModule(source) ==> out == EnsureTrailingNewline(source)
    ensures EndsWith(out, '\n')
    ensures !HasModule(source) ==> HasModule(out)
    ensures !HasModule(source) ==>
              var lines := TrimAll(Lines(source));
              var at := FirstSignificant(lines);
              TrimAll(Lines(out)) ==
              lines[..at] + [Trim(ModuleLine(modulePath))] + (if at < |lines| then [""] else []) + lines[at..]
  {
    hide Trim, Lines, Unlines, IsSignificant, IsWhitespace, FirstSignificant, TrimAll, HasModule;
    if HasModule(source) {
      return EnsureTrailingNewline(source);
    }
    InsertedReads(source, modulePath);
    InsertedIsFound(source, modulePath);
    UnlinesEndsWithNewline(WithModule(Lines(source), FirstSignificant(TrimAll(Lines(source))), modulePath));
    out := InsertModuleDeclaration(source, modulePath);
  }

  lemma {:induction false} UnlinesEndsWithNewline(lines: seq<string>)
    requires lines != []
    ensures EndsWith(Unlines(lines), '\n')
  {
    if |lines| > 1 { UnlinesEndsWithNewline(lines[1..]); }
  }

  /** A missing line end at the end of a file does not change what is read. */
  lemma TrailingNewlineTrimmed(s: string)
    requires s != ""
    ensures TrimAll(Lines(EnsureTrailingNewline(s))) == TrimAll(Lines(s))
  {
    hide Trim, Lines;
    if !EndsWith(s, '\n') {
      TrailingNewlineLines(s);
      TrimIgnoresCr(Lines(s)[|Lines(s)| - 1]);
    }
  }

  lemma ModuleSurvivesNewline(source: string)
    requires HasModule(source)
    ensures HasModule(EnsureTrailingNewline(source))
  {
    hide Trim, Lines, IsModuleLine, IsSignificant;
    NoLines();
    TrailingNewlineTrimmed(source);
  }

  /** Rewriting a rewritten file changes nothing. */
  method RewriteTwice(source: string, modulePath: string) returns (first: string, second: string)
    requires '\n' !in modulePath && !AllWhitespace(modulePath)
    ensures second == first
  {
    hide HasModule, Lines, Trim, TrimAll, IsSignificant, IsWhitespace;
    if HasModule(source) { ModuleSurvivesNewline(source); }
    first := RewriteModule(source, modulePath);
    second := RewriteModule(first, modulePath);
  }
}
