/** Collecting the wrapper declarations a generated TypeScript file needs, and why none is
    missing (`collect_wrappers_from_type` in `connector_sdk.rs`). */
module WrapperUse {
  import opened TypeExprs
  import opened TypeScriptTypes

  // ---------- what is collected ----------

  /** The flags set for a type text: each argument is printed and parsed again. */
  function Collected(raw: string): set<Wrapper>
    decreases Brackets(raw), 1, 0
  {
    match Parse(raw)
    case StringLiteral(_) => {}
    case Named(name, args) =>
      RenderParsedBrackets(raw);
      Sets(name) + CollectedAll(args, Brackets(raw))
  }

  function CollectedAll(args: seq<TypeExpr>, bound: nat): set<Wrapper>
    requires forall a :: a in args ==> Brackets(Render(a)) < bound
    decreases bound, 0, |args|
  {
    if |args| == 0 then {}
    else CollectedAll(args[..|args| - 1], bound) + Collected(Render(args[|args| - 1]))
  }

  class WrapperUsage {
    var money: bool
    var option: bool
    var result: bool
    var uncertain: bool
    var secret: bool
    var json: bool
    var document: bool
    var pdf: bool
    var docx: bool
    var spreadsheetSheet: bool
    var spreadsheet: bool
    var image: bool
    var ocrResult: bool

    constructor ()
      ensures forall w :: !Has(w)
    {
      money, option, result, uncertain, secret, json := false, false, false, false, false, false;
      document, pdf, docx, spreadsheetSheet, spreadsheet, image, ocrResult :=
        false, false, false, false, false, false, false;
    }

    predicate Has(w: Wrapper)
      reads this
    {
      match w
      case Money => money
      case Optional => option
      case Outcome => result
      case Uncertain => uncertain
      case Secret => secret
      case Json => json
      case Document => document
      case Pdf => pdf
      case Docx => docx
      case SpreadsheetSheet => spreadsheetSheet
      case Spreadsheet => spreadsheet
      case Image => image
      case OcrResult => ocrResult
    }

    /** `collect_wrappers_from_type`: exactly the collected flags are added, none is cleared. */
    method Collect(raw: string)
      modifies this
      ensures forall w :: Has(w) <==> old(Has(w)) || w in Collected(raw)
      decreases Brackets(raw)
    {
      hide Brackets, Sets, Has;
      var e := Parse(raw);
      RenderParsedBrackets(raw);
      if e.StringLiteral? {
        return;
      }
      SetFor(e.name);
      for i := 0 to |e.args|
        invariant forall w :: Has(w) <==>
                  old(Has(w)) || w in Sets(e.name) || w in CollectedAll(e.args[..i], Brackets(raw))
      {
        assert e.args[..i + 1][..i] == e.args[..i];
        Collect(Render(e.args[i]));
      }
      assert e.args[..|e.args|] == e.args;
    }

    method SetFor(name: string)
      modifies this
      ensures forall w :: Has(w) <==> old(Has(w)) || w in Sets(name)
    {
      match name {
        case "Money" => money := true;
        case "Option" => option := true;
        case "Result" => result := true;
        case "Uncertain" => uncertain := true;
        case "Secret" => secret := true;
        case "Json" => json := true;
        case "Document" => document := true;
        case "Pdf" =>
          document := true;
          pdf := true;
        case "Docx" =>
          document := true;
          docx := true;
        case "SpreadsheetSheet" => spreadsheetSheet := true;
        case "Spreadsheet" =>
          document := true;
          spreadsheetSheet := true;
          spreadsheet := true;
        case "Image" =>
          document := true;
          image := true;
        case "OcrResult" =>
          document := true;
          image := true;
          ocrResult := true;
        case _ =>
      }
    }
  }

  // ---------- the flags are closed ----------

  ghost predicate Closed(flags: set<Wrapper>) {
    forall w :: w in flags ==> RefersTo(w) <= flags
  }

  lemma SetsIsClosed(name: string)
    ensures Closed(Sets(name))
  {}

  /** Whatever text is collected, each flagged declaration refers to flagged ones only. */
  lemma {:induction false} CollectedIsClosed(raw: string)
    ensures Closed(Collected(raw))
    decreases Brackets(raw), 1, 0
  {
    hide Brackets, Sets, RefersTo;
    RenderParsedBrackets(raw);
    match Parse(raw) {
      case StringLiteral(_) =>
      case Named(name, args) =>
        SetsIsClosed(name);
        CollectedAllIsClosed(args, Brackets(raw));
    }
  }

  lemma {:induction false} CollectedAllIsClosed(args: seq<TypeExpr>, bound: nat)
    requires forall a :: a in args ==> Brackets(Render(a)) < bound
    ensures Closed(CollectedAll(args, bound))
    decreases bound, 0, |args|
  {
    hide Brackets, RefersTo;
    if args != [] {
      CollectedAllIsClosed(args[..|args| - 1], bound);
      CollectedIsClosed(Render(args[|args| - 1]));
    }
  }

  // ---------- the same without printing and parsing ----------

  /** The flags of every name in an expression. */
  function Owned(e: TypeExpr): set<Wrapper>
    decreases e, 0
  {
    match e
    case StringLiteral(_) => {}
    case Named(name, args) => Sets(name) + OwnedAll(args)
  }

  function OwnedAll(args: seq<TypeExpr>): set<Wrapper>
    decreases args, 1
  {
    if |args| == 0 then {} else Owned(args[0]) + OwnedAll(args[1..])
  }

  lemma {:induction false} OwnedByMember(args: seq<TypeExpr>, i: nat)
    requires i < |args|
    ensures Owned(args[i]) <= OwnedAll(args)
  {
    hide Owned;
    if i > 0 { OwnedByMember(args[1..], i - 1); }
  }

  /** Collection visits every name, because each printed argument parses back to itself. */
  lemma {:induction false} CollectedIsOwned(e: TypeExpr)
    requires WellFormed(e)
    ensures Collected(Render(e)) == Owned(e)
    decreases e, 0
  {
    hide Render, Parse, Brackets, Sets;
    ParseRendered(e);
    RenderParsedBrackets(Render(e));
    if e.Named? {
      CollectedAllIsOwned(e.args, Brackets(Render(e)));
    }
  }

  lemma {:induction false} CollectedAllIsOwned(args: seq<TypeExpr>, bound: nat)
    requires forall a :: a in args ==> WellFormed(a) && Brackets(Render(a)) < bound
    ensures CollectedAll(args, bound) == OwnedAll(args)
    decreases args, 1
  {
    hide Render, Brackets;
    if |args| > 0 {
      CollectedIsOwned(args[0]);
      CollectedAllIsOwned(args[1..], bound);
      CollectedFromFront(args, bound);
    }
  }

  lemma {:induction false} CollectedFromFront(args: seq<TypeExpr>, bound: nat)
    requires args != [] && forall a :: a in args ==> Brackets(Render(a)) < bound
    ensures CollectedAll(args, bound) == Collected(Render(args[0])) + CollectedAll(args[1..], bound)
    decreases |args|
  {
    hide Render, Brackets, Collected;
    var n := |args| - 1;
    if n > 0 {
      CollectedFromFront(args[..n], bound);
      assert args[..n][1..] == args[1..][..n - 1];
    }
  }

  // ---------- coverage ----------

  /** The arguments whose forms occur in the form of the whole. */
  function EmittedArgs(name: string, args: seq<TypeExpr>, isCurrency: string -> bool): seq<TypeExpr> {
    match ShapeOf(name)
    case Leaf(_) => []
    case MapOf => if |args| > 1 then [args[1]] else args
    case MoneyOf => if IsCurrencyArg(args, isCurrency) || args == [] then [] else [args[0]]
    case ListOf | OneArg(_, _) | BrandOf => if args == [] then [] else [args[0]]
    case ResultOf => if |args| > 2 then [args[0], args[1]] else args
    case Other => args
  }

  /** A type of the program that is itself called `JsonValue` reaches the output. */
  ghost predicate EmitsJsonValue(e: TypeExpr, isCurrency: string -> bool) {
    match e
    case StringLiteral(_) => false
    case Named(name, args) =>
      name == "JsonValue"
      || exists a :: a in args && a in EmittedArgs(name, args, isCurrency) && EmitsJsonValue(a, isCurrency)
  }

  /** Names the form itself introduces, before its arguments. */
  function HeadNames(name: string): set<string> {
    match ShapeOf(name)
    case Leaf(ts) => {ts}
    case ListOf => {"unknown"}
    case MapOf => {"Record", "string", "unknown"}
    case MoneyOf => {"Money", "string"}
    case OneArg(ts, missing) => {ts, missing}
    case ResultOf => {"Result", "unknown"}
    case BrandOf => {"unknown"}
    case Other => {name}
  }

  /** A name occurs in a form either at its head or in an emitted argument, and every
      emitted argument's names occur. */
  lemma FormMentions(name: string, args: seq<TypeExpr>, isCurrency: string -> bool, n: string)
    ensures Mentions(ToTypeScript(Named(name, args), isCurrency), n) ==>
              n in HeadNames(name)
              || exists a :: a in args && a in EmittedArgs(name, args, isCurrency) &&
                             Mentions(ToTypeScript(a, isCurrency), n)
  {
    hide ShapeOf;
    var form := ToTypeScript(Named(name, args), isCurrency);
    if Mentions(form, n) && n !in HeadNames(name) {
      match ShapeOf(name) {
        case Leaf(ts) =>
        case ListOf => ArgIsMentioned(name, args, 0, "unknown", isCurrency, n);
        case MapOf =>
          var t :| t in form.args && Mentions(t, n);
          var i := if |args| > 1 then 1 else 0;
          assert t == Bare("string") || t == Arg(args, i, "unknown", isCurrency);
          ArgIsMentioned(name, args, i, "unknown", isCurrency, n);
        case MoneyOf =>
          var t :| t in form.args && Mentions(t, n);
          assert !IsCurrencyArg(args, isCurrency) && t == Arg(args, 0, "string", isCurrency);
          ArgIsMentioned(name, args, 0, "string", isCurrency, n);
        case OneArg(ts, missing) =>
          var t :| t in form.args && Mentions(t, n);
          assert t == Arg(args, 0, missing, isCurrency);
          ArgIsMentioned(name, args, 0, missing, isCurrency, n);
        case ResultOf =>
          var t :| t in form.args && Mentions(t, n);
          assert t == Arg(args, 0, "unknown", isCurrency) || t == Arg(args, 1, "unknown", isCurrency);
          var i := if t == Arg(args, 0, "unknown", isCurrency) then 0 else 1;
          ArgIsMentioned(name, args, i, "unknown", isCurrency, n);
        case BrandOf => ArgIsMentioned(name, args, 0, "unknown", isCurrency, n);
        case Other =>
          var t :| t in form.args && Mentions(t, n);
          var i :| 0 <= i < |args| && form.args[i] == t;
          assert args[i] in args && args[i] in EmittedArgs(name, args, isCurrency);
      }
    }
  }

  lemma ArgIsMentioned(name: string, args: seq<TypeExpr>, i: nat, missing: string, isCurrency: string -> bool,
                       n: string)
    requires Mentions(Arg(args, i, missing, isCurrency), n) && n != missing
    requires i < |args| ==> args[i] in EmittedArgs(name, args, isCurrency)
    ensures exists a :: a in args && a in EmittedArgs(name, args, isCurrency) &&
                        Mentions(ToTypeScript(a, isCurrency), n)
  {
    hide EmittedArgs;
    assert i < |args| && args[i] in args;
  }

  lemma EmittedIsMentioned(name: string, args: seq<TypeExpr>, isCurrency: string -> bool, a: TypeExpr, n: string)
    requires a in args && a in EmittedArgs(name, args, isCurrency) && Mentions(ToTypeScript(a, isCurrency), n)
    ensures Mentions(ToTypeScript(Named(name, args), isCurrency), n)
  {
    hide ShapeOf;
    var form := ToTypeScript(Named(name, args), isCurrency);
    var t := ToTypeScript(a, isCurrency);
    match ShapeOf(name) {
      case Leaf(_) =>
      case MapOf =>
        assert form.args[1] == Arg(args, if |args| > 1 then 1 else 0, "unknown", isCurrency) == t;
      case MoneyOf => assert form.args[0] == Arg(args, 0, "string", isCurrency) == t;
      case OneArg(ts, missing) => assert form.args[0] == Arg(args, 0, missing, isCurrency) == t;
      case ResultOf =>
        assert form.args[0] == Arg(args, 0, "unknown", isCurrency)
               && form.args[1] == Arg(args, 1, "unknown", isCurrency);
        assert t == form.args[0] || t == form.args[1];
      case Other =>
        var i :| 0 <= i < |args| && args[i] == a;
        assert form.args[i] == t;
      case ListOf => assert form == TsArray(Arg(args, 0, "unknown", isCurrency));
      case BrandOf => assert form == Arg(args, 0, "unknown", isCurrency) == t;
    }
  }

  /** What a name introduces itself, it also flags, except the bare name `JsonValue`. */
  lemma HeadIsFlagged(name: string, w: Wrapper)
    requires Declares(w) in HeadNames(name)
    ensures w in Sets(name) || (w == Json && name == "JsonValue")
  {
    match w {
      case Money =>
      case Optional =>
      case Outcome =>
      case Uncertain =>
      case Secret =>
      case Json =>
      case Document =>
      case Pdf =>
      case Docx =>
      case SpreadsheetSheet =>
      case Spreadsheet =>
      case Image =>
      case OcrResult =>
    }
  }

  lemma {:induction false} MentionedIsOwned(e: TypeExpr, isCurrency: string -> bool, w: Wrapper)
    requires Mentions(ToTypeScript(e, isCurrency), Declares(w))
    ensures w in Owned(e) || (w == Json && EmitsJsonValue(e, isCurrency))
    decreases e
  {
    hide Sets, HeadNames, EmittedArgs, Declares;
    match e {
      case StringLiteral(_) =>
      case Named(name, args) =>
        FormMentions(name, args, isCurrency, Declares(w));
        if Declares(w) in HeadNames(name) {
          HeadIsFlagged(name, w);
        } else {
          var a :| a in args && a in EmittedArgs(name, args, isCurrency)
                   && Mentions(ToTypeScript(a, isCurrency), Declares(w));
          MentionedIsOwned(a, isCurrency, w);
          var i :| 0 <= i < |args| && args[i] == a;
          OwnedByMember(args, i);
        }
    }
  }

  lemma {:induction false} EmittedJsonValueIsMentioned(e: TypeExpr, isCurrency: string -> bool)
    requires EmitsJsonValue(e, isCurrency)
    ensures Mentions(ToTypeScript(e, isCurrency), "JsonValue")
    decreases e
  {
    hide EmittedArgs;
    if e.name == "JsonValue" {
      assert ShapeOf(e.name).Other?;
    } else {
      var a :| a in e.args && a in EmittedArgs(e.name, e.args, isCurrency) && EmitsJsonValue(a, isCurrency);
      EmittedJsonValueIsMentioned(a, isCurrency);
      EmittedIsMentioned(e.name, e.args, isCurrency, a, "JsonValue");
    }
  }

  /** A name occurs somewhere in an expression. */
  ghost predicate NameOccurs(e: TypeExpr, n: string) {
    match e
    case StringLiteral(_) => false
    case Named(name, args) => name == n || exists a :: a in args && NameOccurs(a, n)
  }

  lemma SetsJson(name: string)
    ensures Json in Sets(name) <==> name == "Json"
  {}

  lemma {:induction false} JsonIsOwned(e: TypeExpr)
    ensures Json in Owned(e) <==> NameOccurs(e, "Json")
    decreases e, 0
  {
    hide Sets;
    if e.Named? {
      SetsJson(e.name);
      JsonIsOwnedByArg(e.args);
    }
  }

  lemma {:induction false} JsonIsOwnedByArg(args: seq<TypeExpr>)
    ensures Json in OwnedAll(args) <==> exists a :: a in args && NameOccurs(a, "Json")
    decreases args, 1
  {
    hide Owned, NameOccurs;
    if args != [] {
      JsonIsOwned(args[0]);
      JsonIsOwnedByArg(args[1..]);
      assert args == [args[0]] + args[1..];
    }
  }

  /** For every well-formed type, each wrapper its TypeScript form mentions is flagged by the
      collection, through all the printing and parsing, exactly if the type does not pass on
      a program type called `JsonValue` without holding the name `Json`. */
  lemma WrapperCoverage(e: TypeExpr, isCurrency: string -> bool)
    requires WellFormed(e)
    ensures (forall w :: Mentions(ToTypeScript(e, isCurrency), Declares(w)) ==> w in Collected(Render(e)))
       <==> (EmitsJsonValue(e, isCurrency) ==> NameOccurs(e, "Json"))
  {
    hide Collected, Owned, WellFormed, Render, ToTypeScript, Mentions, EmitsJsonValue, NameOccurs;
    CollectedIsOwned(e);
    JsonIsOwned(e);
    if EmitsJsonValue(e, isCurrency) {
      EmittedJsonValueIsMentioned(e, isCurrency);
      assert Declares(Json) == "JsonValue";
    }
    forall w | Mentions(ToTypeScript(e, isCurrency), Declares(w))
      ensures w in Owned(e) || (w == Json && EmitsJsonValue(e, isCurrency))
    {
      MentionedIsOwned(e, isCurrency, w);
    }
  }

  /** The bare program type `JsonValue` is mentioned, and nothing is collected for it. */
  lemma JsonValueIsNotCovered(isCurrency: string -> bool)
    ensures var e := Named("JsonValue", []);
            WellFormed(e) && Mentions(ToTypeScript(e, isCurrency), Declares(Json)) && Collected(Render(e)) == {}
  {
    hide Collected, Parse, Render, Brackets;
    var e := Named("JsonValue", []);
    PlainTypeName();
    CollectedIsOwned(e);
    assert ShapeOf("JsonValue").Other?;
  }

  lemma PlainTypeName()
    ensures IsTypeName("JsonValue")
  {}
}
