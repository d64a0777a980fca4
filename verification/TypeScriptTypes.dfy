/** The TypeScript form of a type expression, and the wrapper declarations it needs
    (`connector_sdk.rs`). */
module TypeScriptTypes {
  import opened Wrappers
  import opened Text
  import opened TypeExprs

  // ---------- the TypeScript form ----------

  datatype TsType = TsName(name: string, args: seq<TsType>) | TsArray(element: TsType) | TsString(value: string)

  function EscapeTs(value: string): string {
    if value == "" then ""
    else (if value[0] == '\\' then "\\\\" else if value[0] == '"' then "\\\"" else [value[0]]) + EscapeTs(value[1..])
  }

  /** The text that is emitted for a form. */
  function Print(t: TsType): string
    decreases t, 0
  {
    match t
    case TsString(value) => "\"" + EscapeTs(value) + "\""
    case TsArray(element) => Print(element) + "[]"
    case TsName(name, args) => if args == [] then name else name + "<" + PrintArgs(args) + ">"
  }

  function PrintArgs(args: seq<TsType>): string
    decreases args, 1
  {
    if |args| == 0 then ""
    else if |args| == 1 then Print(args[0])
    else Print(args[0]) + ", " + PrintArgs(args[1..])
  }

  /** How a type name is treated. */
  datatype Shape =
    | Leaf(ts: string)                     // a fixed name without arguments
    | ListOf | MapOf | MoneyOf | BrandOf
    | OneArg(ts: string, missing: string)  // a wrapper of its first argument
    | ResultOf
    | Other                                // a name that is passed on

  function ShapeOf(name: string): Shape {
    match name
    case "Text" | "Uuid" | "Date" | "DateTime" | "Decimal" | "Email" => Leaf("string")
    case "Int" | "Float" => Leaf("number")
    case "Bool" => Leaf("boolean")
    case "Unit" => Leaf("void")
    case "Json" => Leaf("JsonValue")
    case "Document" | "Pdf" | "Docx" | "SpreadsheetSheet" | "Spreadsheet" | "Image" | "OcrResult" => Leaf(name)
    case "List" => ListOf
    case "Map" => MapOf
    case "Money" => MoneyOf
    case "Option" => OneArg("Option", "unknown")
    case "Result" => ResultOf
    case "Uncertain" => OneArg("Uncertain", "unknown")
    case "Secret" => OneArg("Secret", "string")
    case "Brand" => BrandOf
    case _ => Other
  }

  function Bare(name: string): TsType { TsName(name, []) }

  /** Argument `i`, or a default when it is missing. */
  function Arg(args: seq<TypeExpr>, i: nat, missing: string, isCurrency: string -> bool): TsType
    decreases args, 1
  {
    if i < |args| then ToTypeScript(args[i], isCurrency) else Bare(missing)
  }

  predicate IsCurrencyArg(args: seq<TypeExpr>, isCurrency: string -> bool) {
    args != [] && args[0].Named? && args[0].args == [] && isCurrency(args[0].name)
  }

  /** `type_expr_to_typescript`.  Which names are currencies is decided elsewhere. */
  function ToTypeScript(e: TypeExpr, isCurrency: string -> bool): TsType
    decreases e, 2
  {
    match e
    case StringLiteral(value) => TsString(value)
    case Named(name, args) =>
      match ShapeOf(name)
      case Leaf(ts) => Bare(ts)
      case ListOf => TsArray(Arg(args, 0, "unknown", isCurrency))
      case MapOf =>
        TsName("Record", [Bare("string"), Arg(args, if |args| > 1 then 1 else 0, "unknown", isCurrency)])
      case MoneyOf =>
        TsName("Money", [if IsCurrencyArg(args, isCurrency) then TsString(args[0].name)
                         else Arg(args, 0, "string", isCurrency)])
      case OneArg(ts, missing) => TsName(ts, [Arg(args, 0, missing, isCurrency)])
      case ResultOf =>
        TsName("Result", [Arg(args, 0, "unknown", isCurrency), Arg(args, 1, "unknown", isCurrency)])
      case BrandOf => Arg(args, 0, "unknown", isCurrency)
      case Other => TsName(name, seq(|args|, i requires 0 <= i < |args| => ToTypeScript(args[i], isCurrency)))
  }

  /** Every name that occurs in a form. */
  ghost predicate Mentions(t: TsType, name: string) {
    match t
    case TsString(_) => false
    case TsArray(element) => Mentions(element, name)
    case TsName(n, args) => n == name || exists a :: a in args && Mentions(a, name)
  }

  // ---------- the wrapper declarations ----------

  datatype Wrapper =
    | Money | Optional | Outcome | Uncertain | Secret | Json | Document | Pdf | Docx
    | SpreadsheetSheet | Spreadsheet | Image | OcrResult

  /** The identifier a wrapper's declaration introduces. */
  function Declares(w: Wrapper): string {
    match w
    case Money => "Money"
    case Optional => "Option"
    case Outcome => "Result"
    case Uncertain => "Uncertain"
    case Secret => "Secret"
    case Json => "JsonValue"
    case Document => "Document"
    case Pdf => "Pdf"
    case Docx => "Docx"
    case SpreadsheetSheet => "SpreadsheetSheet"
    case Spreadsheet => "Spreadsheet"
    case Image => "Image"
    case OcrResult => "OcrResult"
  }

  /** The wrappers a declaration's own text refers to. */
  function RefersTo(w: Wrapper): set<Wrapper> {
    match w
    case Json => {Json}
    case Pdf | Docx | Image => {Document}
    case Spreadsheet => {Document, SpreadsheetSheet}
    case OcrResult => {Image}
    case _ => {}
  }

  /** The flags one type name sets. */
  function Sets(name: string): set<Wrapper> {
    match name
    case "Money" => {Money}
    case "Option" => {Optional}
    case "Result" => {Outcome}
    case "Uncertain" => {Uncertain}
    case "Secret" => {Secret}
    case "Json" => {Json}
    case "Document" => {Document}
    case "Pdf" => {Document, Pdf}
    case "Docx" => {Document, Docx}
    case "SpreadsheetSheet" => {SpreadsheetSheet}
    case "Spreadsheet" => {Document, SpreadsheetSheet, Spreadsheet}
    case "Image" => {Document, Image}
    case "OcrResult" => {Document, Image, OcrResult}
    case _ => {}
  }

  // ---------- the count that decreases from a type to its printed arguments ----------

  function Brackets(s: string): nat {
    if |s| == 0 then 0 else Brackets(s[..|s| - 1]) + if s[|s| - 1] == '<' then 1 else 0
  }

  function TotalBrackets(args: seq<string>): nat {
    if |args| == 0 then 0 else TotalBrackets(args[..|args| - 1]) + Brackets(args[|args| - 1])
  }

  lemma {:induction false} BracketsConcat(a: string, b: string)
    ensures Brackets(a + b) == Brackets(a) + Brackets(b)
  {
    if b == "" {
      assert a + b == a;
    } else {
      assert (a + b)[..|a + b| - 1] == a + b[..|b| - 1];
      BracketsConcat(a, b[..|b| - 1]);
    }
  }

  lemma {:induction false} NoBrackets(s: string)
    requires '<' !in s
    ensures Brackets(s) == 0
  {
    if s != "" { NoBrackets(s[..|s| - 1]); }
  }

  lemma BracketsTrim(s: string)
    ensures Brackets(Trim(s)) <= Brackets(s)
  {
    hide Trim, Brackets;
    var left, right := TrimSplits(s);
    BracketsConcat(left + Trim(s), right);
    BracketsConcat(left, Trim(s));
  }

  lemma CutBrackets(s: Scan)
    ensures TotalBrackets(s.Cut().args) <= TotalBrackets(s.args) + Brackets(s.current)
  {
    hide Brackets, Trim;
    BracketsTrim(s.current);
    assert (s.args + [Trim(s.current)])[..|s.args|] == s.args;
  }

  lemma StepBrackets(s: Scan, c: char)
    ensures var t := Step(s, c);
            TotalBrackets(t.args) + Brackets(t.current) <= TotalBrackets(s.args) + Brackets(s.current) + Brackets([c])
  {
    hide TotalBrackets, Trim, Brackets;
    CutBrackets(s);
    BracketsConcat(s.current, [c]);
    assert Brackets("") == 0 by { NoBrackets(""); }
  }

  lemma {:induction false} ScanBrackets(s: Scan, raw: string)
    ensures var t := ScanAll(s, raw);
            TotalBrackets(t.args) + Brackets(t.current) <= TotalBrackets(s.args) + Brackets(s.current) + Brackets(raw)
    decreases |raw|
  {
    hide TotalBrackets, Brackets, Step;
    if raw != "" {
      StepBrackets(s, raw[0]);
      ScanBrackets(Step(s, raw[0]), raw[1..]);
      BracketsConcat([raw[0]], raw[1..]);
      assert [raw[0]] + raw[1..] == raw;
    }
  }

  lemma SplitBrackets(raw: string)
    ensures TotalBrackets(SplitArgs(raw)) <= Brackets(raw)
  {
    hide Brackets, ScanAll;
    ScanBrackets(EMPTY_SCAN, raw);
    CutBrackets(ScanAll(EMPTY_SCAN, raw));
    NoBrackets("");
  }

  lemma {:induction false} EachPieceWithin(args: seq<string>, i: nat)
    requires i < |args|
    ensures Brackets(args[i]) <= TotalBrackets(args)
  {
    if i < |args| - 1 { EachPieceWithin(args[..|args| - 1], i); }
  }

  /** Printing what was parsed never adds a bracket. */
  lemma {:induction false} RenderParsedBrackets(raw: string)
    ensures Brackets(Render(Parse(raw))) <= Brackets(raw)
    ensures Parse(raw).Named? ==> forall a :: a in Parse(raw).args ==> Brackets(Render(a)) < Brackets(raw)
    decreases |raw|
  {
    hide Trim, Brackets, ScanAll, TotalBrackets;
    var t := Trim(raw);
    BracketsTrim(raw);
    if Unquoted(t).Some? {
      assert "\"" + t[1..|t| - 1] + "\"" == t;
    } else if SplitOnce(t, '<').Some? {
      var (name, rest) := SplitOnce(t, '<').value;
      var inner := StripClosing(rest);
      var pieces := SplitArgs(inner);
      var args := Parse(raw).args;
      SplitArgsAreShort(inner);
      InnerBrackets(t, name, rest);
      SplitBrackets(inner);
      forall i | 0 <= i < |pieces| ensures Brackets(Render(args[i])) <= Brackets(pieces[i]) {
        RenderParsedBrackets(pieces[i]);
        EachPieceWithin(pieces, i);
      }
      forall a | a in args ensures Brackets(Render(a)) < Brackets(raw) {
        var i :| 0 <= i < |args| && args[i] == a;
        EachPieceWithin(pieces, i);
      }
      ArgsBrackets(args, pieces);
      NamedBrackets(Trim(name), args);
    } else {
      NoBrackets(t);
    }
  }

  lemma InnerBrackets(t: string, name: string, rest: string)
    requires t == name + ['<'] + rest && '<' !in name
    ensures Brackets(StripClosing(rest)) + 1 <= Brackets(t)
    ensures '<' !in Trim(name)
  {
    hide Brackets, Trim;
    var left, right := TrimSplits(name);
    BracketsConcat(name + ['<'], rest);
    BracketsConcat(name, ['<']);
    assert Brackets(['<']) == 1 by { OneBracket(); }
    if EndsWith(rest, '>') {
      assert rest == StripClosing(rest) + ">";
      BracketsConcat(StripClosing(rest), ">");
    }
  }

  lemma OneBracket()
    ensures Brackets(['<']) == 1
  {
    assert ['<'][..0] == "";
  }

  lemma {:induction false} ArgsBrackets(args: seq<TypeExpr>, pieces: seq<string>)
    requires |args| == |pieces| && forall i :: 0 <= i < |pieces| ==> Brackets(Render(args[i])) <= Brackets(pieces[i])
    ensures Brackets(RenderArgs(args)) <= TotalBrackets(pieces)
  {
    hide Brackets, Render;
    if |args| == 0 {
      NoBrackets("");
    } else {
      TotalFromFront(pieces);
      ArgsBrackets(args[1..], pieces[1..]);
      if |args| == 1 {
        assert pieces[1..] == [];
      } else {
        BracketsConcat(Render(args[0]) + ", ", RenderArgs(args[1..]));
        BracketsConcat(Render(args[0]), ", ");
        NoBrackets(", ");
      }
    }
  }

  lemma {:induction false} TotalFromFront(pieces: seq<string>)
    requires pieces != []
    ensures TotalBrackets(pieces) == Brackets(pieces[0]) + TotalBrackets(pieces[1..])
  {
    hide Brackets;
    var n := |pieces| - 1;
    if n > 0 {
      TotalFromFront(pieces[..n]);
      assert pieces[..n][1..] == pieces[1..][..n - 1];
    }
  }

  lemma NamedBrackets(name: string, args: seq<TypeExpr>)
    requires '<' !in name
    ensures Brackets(Render(Named(name, args))) <= 1 + Brackets(RenderArgs(args))
  {
    hide Brackets, RenderArgs;
    NoBrackets(name);
    if args != [] {
      BracketsConcat(name + "<" + RenderArgs(args), ">");
      BracketsConcat(name + "<", RenderArgs(args));
      BracketsConcat(name, "<");
      OneBracket();
      NoBrackets(">");
    }
  }
}
