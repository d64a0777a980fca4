/** The order of the emitted text: the program's own types come in the order in which the
    expression names them (`connector_sdk.rs`). */
module TypeScriptOrder {
  import opened Text
  import opened TypeExprs
  import opened TypeScriptTypes
  import opened WrapperUse
  import opened TypeScriptText

  // ---------- names of the program ----------

  /** A name that is neither built into the language nor one of TypeScript's or the
      declarations'. */
  predicate IsProgramName(name: string) {
    name !in ["Text", "Uuid", "Date", "DateTime", "Decimal", "Email", "Int", "Float", "Bool", "Unit", "Json", "List",
              "Map", "Brand", "Money", "Option", "Result", "Uncertain", "Secret", "Document", "Pdf", "Docx",
              "SpreadsheetSheet", "Spreadsheet", "Image", "OcrResult",
              "string", "number", "boolean", "void", "unknown", "JsonValue", "Record"]
  }

  function Passed(names: seq<string>): seq<string> {
    if names == [] then [] else (if IsProgramName(names[0]) then [names[0]] else []) + Passed(names[1..])
  }

  /** The program's names in an expression, in order, without the arguments that built-in types
      ignore: all but the first, of `Map` all but the second, of `Result` all but two. */
  function ProgramNames(e: TypeExpr, isCurrency: string -> bool): seq<string>
    decreases e, 1
  {
    match e
    case StringLiteral(_) => []
    case Named(name, args) =>
      match name
      case "Text" | "Uuid" | "Date" | "DateTime" | "Decimal" | "Email" | "Int" | "Float" | "Bool" | "Unit" | "Json" =>
        []
      case "Document" | "Pdf" | "Docx" | "SpreadsheetSheet" | "Spreadsheet" | "Image" | "OcrResult" => []
      case "List" | "Option" | "Uncertain" | "Secret" | "Brand" => NamesAt(args, 0, isCurrency)
      case "Map" => NamesAt(args, if |args| > 1 then 1 else 0, isCurrency)
      case "Money" =>
        if args != [] && args[0].Named? && args[0].args == [] && isCurrency(args[0].name) then []
        else NamesAt(args, 0, isCurrency)
      case "Result" => NamesAt(args, 0, isCurrency) + NamesAt(args, 1, isCurrency)
      case _ => Passed([name]) + NamesOfAll(args, isCurrency)
  }

  function NamesAt(args: seq<TypeExpr>, i: nat, isCurrency: string -> bool): seq<string>
    decreases args, 0
  {
    if i < |args| then ProgramNames(args[i], isCurrency) else []
  }

  function NamesOfAll(args: seq<TypeExpr>, isCurrency: string -> bool): seq<string>
    decreases args, 2
  {
    if args == [] then [] else ProgramNames(args[0], isCurrency) + NamesOfAll(args[1..], isCurrency)
  }

  // ---------- the names of the form ----------

  lemma {:induction false} PassedConcat(a: seq<string>, b: seq<string>)
    ensures Passed(a + b) == Passed(a) + Passed(b)
  {
    hide IsProgramName;
    if a == [] {
      assert a + b == b;
    } else {
      var head := if IsProgramName(a[0]) then [a[0]] else [];
      assert (a + b)[1..] == a[1..] + b;
      PassedConcat(a[1..], b);
      assert Passed(a + b) == head + (Passed(a[1..]) + Passed(b));
    }
  }

  lemma PassedOne(name: string, rest: seq<string>)
    ensures Passed([name] + rest) == Passed([name]) + Passed(rest)
  {
    PassedConcat([name], rest);
  }

  lemma FixedIsNotPassed(name: string)
    requires !IsProgramName(name)
    ensures Passed([name]) == []
  {
    hide IsProgramName;
  }

  /** The form of argument `i` holds the names of that argument. */
  lemma ArgNames(args: seq<TypeExpr>, i: nat, missing: string, isCurrency: string -> bool)
    requires !IsProgramName(missing)
    requires i < |args| ==> Passed(NamesIn(ToTypeScript(args[i], isCurrency))) == ProgramNames(args[i], isCurrency)
    ensures Passed(NamesIn(Arg(args, i, missing, isCurrency))) == NamesAt(args, i, isCurrency)
  {
    hide IsProgramName, ToTypeScript, ProgramNames;
    if i >= |args| {
      FixedIsNotPassed(missing);
      NamesOfBare(missing);
    }
  }

  lemma NamesOfBare(name: string)
    ensures NamesIn(Bare(name)) == [name]
  {
    assert NamesInAll([]) == [];
  }

  lemma WrappedNames(name: string, t: TsType)
    requires !IsProgramName(name)
    ensures Passed(NamesIn(TsName(name, [t]))) == Passed(NamesIn(t))
  {
    hide IsProgramName, Passed;
    OneName(t);
    PassedOne(name, NamesIn(t));
    FixedIsNotPassed(name);
  }

  lemma OneName(t: TsType)
    ensures NamesInAll([t]) == NamesIn(t)
  {
    assert [t][1..] == [] && NamesInAll([]) == [];
    assert NamesIn(t) + [] == NamesIn(t);
  }

  lemma PairedNames(name: string, s: TsType, t: TsType)
    requires !IsProgramName(name)
    ensures Passed(NamesIn(TsName(name, [s, t]))) == Passed(NamesIn(s)) + Passed(NamesIn(t))
  {
    hide IsProgramName, Passed;
    assert [s, t][1..] == [t];
    OneName(t);
    PassedOne(name, NamesIn(s) + NamesIn(t));
    PassedConcat(NamesIn(s), NamesIn(t));
    FixedIsNotPassed(name);
  }

  lemma {:induction false} AllNames(args: seq<TypeExpr>, ts: seq<TsType>, isCurrency: string -> bool)
    requires |ts| == |args| && forall i :: 0 <= i < |args| ==> ts[i] == ToTypeScript(args[i], isCurrency)
    requires forall i :: 0 <= i < |args| ==>
             Passed(NamesIn(ToTypeScript(args[i], isCurrency))) == ProgramNames(args[i], isCurrency)
    ensures Passed(NamesInAll(ts)) == NamesOfAll(args, isCurrency)
    decreases |args|
  {
    hide IsProgramName, ToTypeScript, ProgramNames, NamesIn;
    if args != [] {
      AllNames(args[1..], ts[1..], isCurrency);
      PassedConcat(NamesIn(ts[0]), NamesInAll(ts[1..]));
    }
  }

  /** The names of the form that belong to the program are those of the expression, in order. */
  lemma {:induction false} FormNames(e: TypeExpr, isCurrency: string -> bool)
    ensures Passed(NamesIn(ToTypeScript(e, isCurrency))) == ProgramNames(e, isCurrency)
    decreases e
  {
    hide IsProgramName, ShapeOf, Passed, NamesAt, NamesOfAll;
    match e
    case StringLiteral(_) => NothingPassed();
    case Named(name, args) =>
      forall i | 0 <= i < |args|
        ensures Passed(NamesIn(ToTypeScript(args[i], isCurrency))) == ProgramNames(args[i], isCurrency)
      {
        FormNames(args[i], isCurrency);
      }
      NamedFormNames(name, args, isCurrency);
  }

  lemma NothingPassed()
    ensures Passed([]) == []
  {}

  lemma FixedNames()
    ensures !IsProgramName("unknown") && !IsProgramName("string") && !IsProgramName("Record")
    ensures !IsProgramName("Money") && !IsProgramName("Result") && !IsProgramName("Option")
    ensures !IsProgramName("Uncertain") && !IsProgramName("Secret")
  {}

  lemma NamedFormNames(name: string, args: seq<TypeExpr>, isCurrency: string -> bool)
    requires forall i :: 0 <= i < |args| ==>
               Passed(NamesIn(ToTypeScript(args[i], isCurrency))) == ProgramNames(args[i], isCurrency)
    ensures Passed(NamesIn(ToTypeScript(Named(name, args), isCurrency))) == ProgramNames(Named(name, args), isCurrency)
  {
    hide *;
    match name
    case "List" | "Brand" | "Option" | "Uncertain" | "Secret" => OneArgForm(name, args, isCurrency);
    case "Map" => MapForm(name, args, isCurrency);
    case "Money" => MoneyForm(name, args, isCurrency);
    case "Result" => ResultForm(name, args, isCurrency);
    case _ =>
      NamedShape(name);
      if ShapeOf(name).Leaf? {
        LeafForm(name, args, isCurrency);
      } else {
        OtherForm(name, args, isCurrency);
      }
  }

  lemma NamedShape(name: string)
    requires name !in ["List", "Brand", "Option", "Uncertain", "Secret", "Map", "Money", "Result"]
    ensures ShapeOf(name).Leaf? || ShapeOf(name).Other?
  {}

  lemma OneArgForm(name: string, args: seq<TypeExpr>, isCurrency: string -> bool)
    requires name in ["List", "Brand", "Option", "Uncertain", "Secret"]
    requires forall i :: 0 <= i < |args| ==>
               Passed(NamesIn(ToTypeScript(args[i], isCurrency))) == ProgramNames(args[i], isCurrency)
    ensures Passed(NamesIn(ToTypeScript(Named(name, args), isCurrency))) == ProgramNames(Named(name, args), isCurrency)
  {
    hide IsProgramName, Passed, NamesAt, NamesOfAll, Arg, NamesIn;
    FixedNames();
    match name
    case "List" =>
      ArgNames(args, 0, "unknown", isCurrency);
      ArrayNames(Arg(args, 0, "unknown", isCurrency));
    case "Brand" => ArgNames(args, 0, "unknown", isCurrency);
    case "Secret" =>
      ArgNames(args, 0, "string", isCurrency);
      WrappedNames(name, Arg(args, 0, "string", isCurrency));
    case _ =>
      ArgNames(args, 0, "unknown", isCurrency);
      WrappedNames(name, Arg(args, 0, "unknown", isCurrency));
  }

  lemma MapForm(name: string, args: seq<TypeExpr>, isCurrency: string -> bool)
    requires name == "Map"
    requires forall i :: 0 <= i < |args| ==>
               Passed(NamesIn(ToTypeScript(args[i], isCurrency))) == ProgramNames(args[i], isCurrency)
    ensures Passed(NamesIn(ToTypeScript(Named(name, args), isCurrency))) == ProgramNames(Named(name, args), isCurrency)
  {
    hide IsProgramName, Passed, NamesAt, NamesOfAll, Arg, NamesIn;
    FixedNames();
    var i := if |args| > 1 then 1 else 0;
    ArgNames(args, i, "unknown", isCurrency);
    NamesOfBare("string");
    FixedIsNotPassed("string");
    PairedNames("Record", Bare("string"), Arg(args, i, "unknown", isCurrency));
  }

  lemma MoneyForm(name: string, args: seq<TypeExpr>, isCurrency: string -> bool)
    requires name == "Money"
    requires forall i :: 0 <= i < |args| ==>
               Passed(NamesIn(ToTypeScript(args[i], isCurrency))) == ProgramNames(args[i], isCurrency)
    ensures Passed(NamesIn(ToTypeScript(Named(name, args), isCurrency))) == ProgramNames(Named(name, args), isCurrency)
  {
    hide IsProgramName, Passed, NamesAt, NamesOfAll, Arg, NamesIn;
    FixedNames();
    ArgNames(args, 0, "string", isCurrency);
    if IsCurrencyArg(args, isCurrency) {
      WrappedNames("Money", TsString(args[0].name));
      NoNames(args[0].name);
      NothingPassed();
    } else {
      WrappedNames("Money", Arg(args, 0, "string", isCurrency));
    }
  }

  lemma ResultForm(name: string, args: seq<TypeExpr>, isCurrency: string -> bool)
    requires name == "Result"
    requires forall i :: 0 <= i < |args| ==>
               Passed(NamesIn(ToTypeScript(args[i], isCurrency))) == ProgramNames(args[i], isCurrency)
    ensures Passed(NamesIn(ToTypeScript(Named(name, args), isCurrency))) == ProgramNames(Named(name, args), isCurrency)
  {
    hide IsProgramName, Passed, NamesAt, NamesOfAll, Arg, NamesIn;
    FixedNames();
    ArgNames(args, 0, "unknown", isCurrency);
    ArgNames(args, 1, "unknown", isCurrency);
    PairedNames("Result", Arg(args, 0, "unknown", isCurrency), Arg(args, 1, "unknown", isCurrency));
  }

  lemma LeafForm(name: string, args: seq<TypeExpr>, isCurrency: string -> bool)
    requires ShapeOf(name).Leaf?
    requires forall i :: 0 <= i < |args| ==>
               Passed(NamesIn(ToTypeScript(args[i], isCurrency))) == ProgramNames(args[i], isCurrency)
    ensures Passed(NamesIn(ToTypeScript(Named(name, args), isCurrency))) == ProgramNames(Named(name, args), isCurrency)
  {
    hide IsProgramName, Passed, NamesAt, NamesOfAll, NamesIn;
    LeafNames(name);
  }

  lemma OtherForm(name: string, args: seq<TypeExpr>, isCurrency: string -> bool)
    requires ShapeOf(name).Other?
    requires forall i :: 0 <= i < |args| ==>
               Passed(NamesIn(ToTypeScript(args[i], isCurrency))) == ProgramNames(args[i], isCurrency)
    ensures Passed(NamesIn(ToTypeScript(Named(name, args), isCurrency))) == ProgramNames(Named(name, args), isCurrency)
  {
    hide IsProgramName, Passed, NamesAt, NamesOfAll, NamesIn;
    var ts := seq(|args|, i requires 0 <= i < |args| => ToTypeScript(args[i], isCurrency));
    AllNames(args, ts, isCurrency);
    OtherNames(name, ts);
  }

  lemma NoNames(value: string)
    ensures NamesIn(TsString(value)) == []
  {}

  lemma ArrayNames(t: TsType)
    ensures NamesIn(TsArray(t)) == NamesIn(t)
  {}

  lemma OtherNames(name: string, ts: seq<TsType>)
    ensures Passed(NamesIn(TsName(name, ts))) == Passed([name]) + Passed(NamesInAll(ts))
  {
    PassedOne(name, NamesInAll(ts));
  }

  lemma LeafNames(name: string)
    requires ShapeOf(name).Leaf?
    ensures Passed(NamesIn(Bare(ShapeOf(name).ts))) == []
  {
    hide Passed;
    NamesOfBare(ShapeOf(name).ts);
    FixedIsNotPassed(ShapeOf(name).ts);
  }

  // ---------- on the text ----------

  /** The identifiers of the emitted text are the names of the form, in order. */
  lemma IdentifiersAreNames(e: TypeExpr, isCurrency: string -> bool)
    requires IsSimple(e)
    ensures Identifiers(Print(ToTypeScript(e, isCurrency))) == NamesIn(ToTypeScript(e, isCurrency))
  {
    hide Lex, Print, ToTypeScript, IsSimple, NamesIn, HasSimpleNames;
    var t := ToTypeScript(e, isCurrency);
    FormIsSimple(e, isCurrency);
    LexPrint(Lexer([], "", Code), t);
    assert [] + NamesIn(t) == NamesIn(t);
  }

  // ---------- against the text of the expression ----------

  /** Every name of an expression in the order in which it is written. */
  function Written(e: TypeExpr): seq<string>
    decreases e, 0
  {
    match e
    case StringLiteral(_) => []
    case Named(name, args) => [name] + WrittenAll(args)
  }

  function WrittenAll(args: seq<TypeExpr>): seq<string>
    decreases args, 1
  {
    if args == [] then [] else Written(args[0]) + WrittenAll(args[1..])
  }

  lemma {:induction false} LexInside(l: Lexer, value: string)
    requires l.mode.Quoted? && '"' !in value
    ensures Lex(l, value) == l.(mode := if TrailingBackslashes(value) % 2 == 0 then Quoted else Escaped)
  {
    if value != "" {
      var front := value[..|value| - 1];
      assert forall c :: c in front ==> c in value;
      assert value[|value| - 1] in value;
      LexInside(l, front);
    }
  }

  lemma LexLiteral(l: Lexer, value: string)
    requires l.mode.Code? && l.current == "" && IsLiteral(value)
    ensures Lex(l, "\"" + value + "\"") == l
  {
    hide Lex;
    var quoted := l.(mode := Quoted);
    LexConcat(l, "\"" + value, "\"");
    LexConcat(l, "\"", value);
    LexOne(l, '"');
    LexInside(quoted, value);
    LexOne(quoted, '"');
  }

  lemma {:induction false} LexRender(l: Lexer, e: TypeExpr)
    requires l.mode.Code? && l.current == "" && IsSimple(e) && WellFormed(e)
    ensures HasMet(l, Written(e), Lex(l, Render(e)))
    decreases e, 0
  {
    hide Lex, IsIdentifierChar, IsLiteral, IsTypeName;
    match e
    case StringLiteral(value) =>
      LexLiteral(l, value);
      assert l.found + [] == l.found;
    case Named(name, args) =>
      LexWord(l, name);
      assert "" + name == name;
      if args == [] {
        assert Written(e) == [name];
      } else {
        Punctuation();
        var inside := Lexer(l.found + [name], "", Code);
        LexConcat(l, name + "<" + RenderArgs(args), ">");
        LexConcat(l, name + "<", RenderArgs(args));
        LexConcat(l, name, "<");
        LexDelimiter(l.(current := name), '<');
        LexRenderArgs(inside, args);
        LexDelimiter(Lex(inside, RenderArgs(args)), '>');
        assert l.found + Written(e) == l.found + [name] + WrittenAll(args);
      }
  }

  lemma {:induction false} LexRenderArgs(l: Lexer, args: seq<TypeExpr>)
    requires l.mode.Code? && l.current == "" && args != [] && forall a :: a in args ==> IsSimple(a) && WellFormed(a)
    ensures HasMet(l, WrittenAll(args), Lex(l, RenderArgs(args)))
    decreases args, 1
  {
    hide Lex, IsIdentifierChar, Render, IsSimple, WellFormed;
    LexRender(l, args[0]);
    if |args| == 1 {
      assert WrittenAll(args) == Written(args[0]) + [];
    } else {
      var first := Lex(l, Render(args[0]));
      LexConcat(l, Render(args[0]) + ", ", RenderArgs(args[1..]));
      LexConcat(l, Render(args[0]), ", ");
      LexComma(first);
      LexRenderArgs(first.Flush(), args[1..]);
      assert l.found + WrittenAll(args) == l.found + Written(args[0]) + WrittenAll(args[1..]);
    }
  }

  lemma IdentifiersAreWritten(e: TypeExpr)
    requires IsSimple(e) && WellFormed(e)
    ensures Identifiers(Render(e)) == Written(e)
  {
    hide Lex, Render, IsSimple, WellFormed, Written;
    LexRender(Lexer([], "", Code), e);
    assert [] + Written(e) == Written(e);
  }

  // ---------- subsequences ----------

  /** `a` is `b` with some elements left out. */
  predicate IsPart(a: seq<string>, b: seq<string>)
    decreases b
  {
    if a == [] then true
    else if b == [] then false
    else (a[0] == b[0] && IsPart(a[1..], b[1..])) || IsPart(a, b[1..])
  }

  lemma {:induction false} PartOfMore(a: seq<string>, b: seq<string>, front: seq<string>)
    requires IsPart(a, b)
    ensures IsPart(a, front + b)
    decreases |front|
  {
    if front == [] {
      assert front + b == b;
    } else {
      assert (front + b)[1..] == front[1..] + b;
      PartOfMore(a, b, front[1..]);
    }
  }

  lemma {:induction false} PartConcat(a: seq<string>, b: seq<string>, c: seq<string>, d: seq<string>)
    requires IsPart(a, b) && IsPart(c, d)
    ensures IsPart(a + c, b + d)
    decreases |b|
  {
    if a == [] {
      assert a + c == c;
      PartOfMore(c, d, b);
    } else {
      assert (b + d)[1..] == b[1..] + d && (a + c)[1..] == a[1..] + c;
      if a[0] == b[0] && IsPart(a[1..], b[1..]) {
        PartConcat(a[1..], b[1..], c, d);
      } else {
        PartConcat(a, b[1..], c, d);
      }
    }
  }

  lemma NothingIsPart(b: seq<string>)
    ensures IsPart([], b)
  {}

  lemma {:induction false} PartAt(args: seq<TypeExpr>, i: nat, isCurrency: string -> bool)
    requires forall k :: 0 <= k < |args| ==> IsPart(ProgramNames(args[k], isCurrency), Written(args[k]))
    ensures IsPart(NamesAt(args, i, isCurrency), WrittenAll(args))
    decreases |args|
  {
    hide IsPart, ProgramNames, Written;
    if i >= |args| {
      NothingIsPart(WrittenAll(args));
    } else if i == 0 {
      NothingIsPart(WrittenAll(args[1..]));
      PartConcat(NamesAt(args, 0, isCurrency), Written(args[0]), [], WrittenAll(args[1..]));
      assert NamesAt(args, 0, isCurrency) + [] == NamesAt(args, 0, isCurrency);
    } else {
      PartAt(args[1..], i - 1, isCurrency);
      PartOfMore(NamesAt(args, i, isCurrency), WrittenAll(args[1..]), Written(args[0]));
    }
  }

  lemma PartAtBoth(args: seq<TypeExpr>, isCurrency: string -> bool)
    requires forall k :: 0 <= k < |args| ==> IsPart(ProgramNames(args[k], isCurrency), Written(args[k]))
    ensures IsPart(NamesAt(args, 0, isCurrency) + NamesAt(args, 1, isCurrency), WrittenAll(args))
  {
    hide IsPart, ProgramNames, Written;
    var first, second := NamesAt(args, 0, isCurrency), NamesAt(args, 1, isCurrency);
    if args == [] {
      NothingIsPart(WrittenAll(args));
      assert first + second == [];
    } else {
      PartAt(args[1..], 0, isCurrency);
      assert second == NamesAt(args[1..], 0, isCurrency);
      PartConcat(first, Written(args[0]), second, WrittenAll(args[1..]));
    }
  }

  lemma {:induction false} PartOfAll(args: seq<TypeExpr>, isCurrency: string -> bool)
    requires forall k :: 0 <= k < |args| ==> IsPart(ProgramNames(args[k], isCurrency), Written(args[k]))
    ensures IsPart(NamesOfAll(args, isCurrency), WrittenAll(args))
    decreases |args|
  {
    hide IsPart, ProgramNames, Written;
    if args == [] {
      NothingIsPart([]);
    } else {
      PartOfAll(args[1..], isCurrency);
      PartConcat(ProgramNames(args[0], isCurrency), Written(args[0]), NamesOfAll(args[1..], isCurrency),
                 WrittenAll(args[1..]));
    }
  }

  lemma {:induction false} ProgramNamesAreWritten(e: TypeExpr, isCurrency: string -> bool)
    ensures IsPart(ProgramNames(e, isCurrency), Written(e))
    decreases e
  {
    hide IsPart, IsProgramName, NamesAt, NamesOfAll, WrittenAll, Passed;
    match e
    case StringLiteral(_) => NothingIsPart([]);
    case Named(name, args) =>
      forall k | 0 <= k < |args| ensures IsPart(ProgramNames(args[k], isCurrency), Written(args[k])) {
        ProgramNamesAreWritten(args[k], isCurrency);
      }
      NothingIsPart(Written(e));
      PartAt(args, 0, isCurrency);
      PartAt(args, 1, isCurrency);
      PartAtBoth(args, isCurrency);
      PartOfAll(args, isCurrency);
      PartOfMore(NamesAt(args, 0, isCurrency), WrittenAll(args), [name]);
      PartOfMore(NamesAt(args, 1, isCurrency), WrittenAll(args), [name]);
      PartOfMore(NamesAt(args, 0, isCurrency) + NamesAt(args, 1, isCurrency), WrittenAll(args), [name]);
      PassedIsPart(name);
      PartConcat(Passed([name]), [name], NamesOfAll(args, isCurrency), WrittenAll(args));
  }

  lemma PassedIsPart(name: string)
    ensures IsPart(Passed([name]), [name])
  {
    assert [name][1..] == [];
  }

  /** The program's types in the emitted text come in the order in which the text of the
      expression names them: exactly those of the arguments that built-in types keep. */
  lemma OrderOfTheText(e: TypeExpr, isCurrency: string -> bool)
    requires IsSimple(e) && WellFormed(e)
    ensures Passed(Identifiers(Print(ToTypeScript(e, isCurrency)))) == ProgramNames(e, isCurrency)
    ensures IsPart(ProgramNames(e, isCurrency), Identifiers(Render(e)))
  {
    hide *;
    IdentifiersAreNames(e, isCurrency);
    FormNames(e, isCurrency);
    IdentifiersAreWritten(e);
    ProgramNamesAreWritten(e, isCurrency);
  }
}
