/** The text of a TypeScript form: which identifiers a reader of the emitted file meets. */
module TypeScriptText {
  import opened Text
  import opened TypeExprs
  import opened TypeScriptTypes
  import opened WrapperUse

  // ---------- identifiers of a text ----------

  /** The characters of an identifier, non-ASCII letters apart. */
  predicate IsIdentifierChar(c: char) { IsAlphanumeric(c) || c == '_' || c == '$' }

  datatype Mode = Code | Quoted | Escaped

  /** A scanner for identifiers outside string literals. */
  datatype Lexer = Lexer(found: seq<string>, current: string, mode: Mode) {
    function Flush(): Lexer {
      if current == "" then this else Lexer(found + [current], "", mode)
    }

    function Step(c: char): Lexer {
      match mode
      case Quoted => if c == '\\' then this.(mode := Escaped) else if c == '"' then this.(mode := Code) else this
      case Escaped => this.(mode := Quoted)
      case Code =>
        if c == '"' then Flush().(mode := Quoted)
        else if IsIdentifierChar(c) then this.(current := current + [c])
        else Flush()
    }
  }

  function Lex(l: Lexer, text: string): Lexer {
    if text == "" then l else Lex(l, text[..|text| - 1]).Step(text[|text| - 1])
  }

  function Identifiers(text: string): seq<string> { Lex(Lexer([], "", Code), text).Flush().found }

  lemma {:induction false} LexConcat(l: Lexer, a: string, b: string)
    ensures Lex(l, a + b) == Lex(Lex(l, a), b)
  {
    if b == "" {
      assert a + b == a;
    } else {
      assert (a + b)[..|a + b| - 1] == a + b[..|b| - 1];
      LexConcat(l, a, b[..|b| - 1]);
    }
  }

  lemma LexOne(l: Lexer, c: char)
    ensures Lex(l, [c]) == l.Step(c)
  {
    assert [c][..0] == "";
  }

  // ---------- the pieces of a printed form ----------

  predicate IsSimpleName(name: string) {
    name != "" && !IsDigit(name[0]) && forall c :: c in name ==> IsIdentifierChar(c)
  }

  lemma {:induction false} LexWord(l: Lexer, w: string)
    requires l.mode.Code? && forall c :: c in w ==> IsIdentifierChar(c)
    ensures Lex(l, w) == l.(current := l.current + w)
  {
    if w == "" {
      assert l.current + w == l.current;
    } else {
      var front := w[..|w| - 1];
      assert w[|w| - 1] in w && forall c :: c in front ==> c in w;
      LexWord(l, front);
      assert l.current + w == l.current + front + [w[|w| - 1]];
    }
  }

  lemma {:induction false} LexEscaped(l: Lexer, value: string)
    requires l.mode.Quoted?
    ensures Lex(l, EscapeTs(value)) == l
    decreases |value|
  {
    if value != "" {
      var c, rest := value[0], EscapeTs(value[1..]);
      var piece := if c == '\\' then "\\\\" else if c == '"' then "\\\"" else [c];
      LexConcat(l, piece, rest);
      LexEscapedChar(l, c);
      LexEscaped(l, value[1..]);
    }
  }

  lemma LexEscapedChar(l: Lexer, c: char)
    requires l.mode.Quoted?
    ensures Lex(l, if c == '\\' then "\\\\" else if c == '"' then "\\\"" else [c]) == l
  {
    if c == '\\' {
      assert "\\\\" == ['\\'] + ['\\'];
      LexConcat(l, ['\\'], ['\\']);
      LexOne(l, '\\');
      LexOne(l.(mode := Escaped), '\\');
    } else if c == '"' {
      assert "\\\"" == ['\\'] + ['"'];
      LexConcat(l, ['\\'], ['"']);
      LexOne(l, '\\');
      LexOne(l.(mode := Escaped), '"');
    } else {
      LexOne(l, c);
    }
  }

  lemma LexString(l: Lexer, value: string)
    requires l.mode.Code? && l.current == ""
    ensures Lex(l, "\"" + EscapeTs(value) + "\"") == l
  {
    var quoted := l.(mode := Quoted);
    LexConcat(l, "\"" + EscapeTs(value), "\"");
    LexConcat(l, "\"", EscapeTs(value));
    LexOne(l, '"');
    LexEscaped(quoted, value);
    LexOne(quoted, '"');
  }

  // ---------- the names of a form ----------

  /** The names of a form in the order they are printed. */
  function NamesIn(t: TsType): seq<string>
    decreases t, 0
  {
    match t
    case TsString(_) => []
    case TsArray(element) => NamesIn(element)
    case TsName(name, args) => [name] + NamesInAll(args)
  }

  function NamesInAll(args: seq<TsType>): seq<string>
    decreases args, 1
  {
    if args == [] then [] else NamesIn(args[0]) + NamesInAll(args[1..])
  }

  predicate HasSimpleNames(t: TsType) {
    match t
    case TsString(_) => true
    case TsArray(element) => HasSimpleNames(element)
    case TsName(name, args) => IsSimpleName(name) && forall a :: a in args ==> HasSimpleNames(a)
  }

  /** Whatever is pending at the end, the scanner has met the names of the form. */
  ghost predicate HasMet(l: Lexer, names: seq<string>, after: Lexer) {
    after.mode.Code? && after.Flush() == Lexer(l.found + names, "", Code)
  }

  lemma {:induction false} LexPrint(l: Lexer, t: TsType)
    requires l.mode.Code? && l.current == "" && HasSimpleNames(t)
    ensures HasMet(l, NamesIn(t), Lex(l, Print(t)))
    decreases t, 0
  {
    hide Lex, IsIdentifierChar, EscapeTs;
    match t
    case TsString(value) =>
      LexString(l, value);
      assert l.found + [] == l.found;
    case TsArray(element) =>
      LexPrint(l, element);
      LexConcat(l, Print(element), "[]");
      LexBrackets(Lex(l, Print(element)));
    case TsName(name, args) =>
      LexWord(l, name);
      assert "" + name == name;
      if args == [] {
        assert NamesIn(t) == [name];
      } else {
        Punctuation();
        var inside := Lexer(l.found + [name], "", Code);
        LexConcat(l, name + "<" + PrintArgs(args), ">");
        LexConcat(l, name + "<", PrintArgs(args));
        LexConcat(l, name, "<");
        LexDelimiter(l.(current := name), '<');
        LexPrintArgs(inside, args);
        LexDelimiter(Lex(inside, PrintArgs(args)), '>');
        assert l.found + NamesIn(t) == l.found + [name] + NamesInAll(args);
      }
  }

  lemma LexDelimiter(l: Lexer, c: char)
    requires l.mode.Code? && !IsIdentifierChar(c) && c != '"'
    ensures Lex(l, [c]) == l.Flush()
  {
    LexOne(l, c);
  }

  lemma Punctuation()
    ensures forall c :: c in "<>[], " ==> !IsIdentifierChar(c) && c != '"'
  {}

  lemma LexBrackets(l: Lexer)
    requires l.mode.Code?
    ensures Lex(l, "[]") == l.Flush()
  {
    hide Lex;
    Punctuation();
    assert "[]" == ['['] + [']'];
    LexConcat(l, ['['], [']']);
    LexDelimiter(l, '[');
    LexDelimiter(l.Flush(), ']');
  }

  lemma LexComma(l: Lexer)
    requires l.mode.Code?
    ensures Lex(l, ", ") == l.Flush()
  {
    hide Lex;
    Punctuation();
    assert ", " == [','] + [' '];
    LexConcat(l, [','], [' ']);
    LexDelimiter(l, ',');
    LexDelimiter(l.Flush(), ' ');
  }

  lemma {:induction false} LexPrintArgs(l: Lexer, args: seq<TsType>)
    requires l.mode.Code? && l.current == "" && args != [] && forall a :: a in args ==> HasSimpleNames(a)
    ensures HasMet(l, NamesInAll(args), Lex(l, PrintArgs(args)))
    decreases args, 1
  {
    hide Lex, IsIdentifierChar, Print, HasSimpleNames;
    LexPrint(l, args[0]);
    if |args| == 1 {
      assert NamesInAll(args) == NamesIn(args[0]) + [];
    } else {
      var first := Lex(l, Print(args[0]));
      LexConcat(l, Print(args[0]) + ", ", PrintArgs(args[1..]));
      LexConcat(l, Print(args[0]), ", ");
      LexComma(first);
      LexPrintArgs(first.Flush(), args[1..]);
      assert l.found + NamesInAll(args) == l.found + NamesIn(args[0]) + NamesInAll(args[1..]);
    }
  }

  lemma {:induction false} NamesAreMentioned(t: TsType, n: string)
    ensures n in NamesIn(t) <==> Mentions(t, n)
    decreases t, 0
  {
    match t
    case TsString(_) =>
    case TsArray(element) => NamesAreMentioned(element, n);
    case TsName(name, args) => ArgNamesAreMentioned(args, n);
  }

  lemma {:induction false} ArgNamesAreMentioned(args: seq<TsType>, n: string)
    ensures n in NamesInAll(args) <==> exists a :: a in args && Mentions(a, n)
    decreases args, 1
  {
    hide NamesIn, Mentions;
    if args != [] {
      NamesAreMentioned(args[0], n);
      ArgNamesAreMentioned(args[1..], n);
      assert args == [args[0]] + args[1..];
    }
  }

  // ---------- coverage of the text ----------

  /** Every name of an expression is one identifier. */
  predicate IsSimple(e: TypeExpr) {
    match e
    case StringLiteral(_) => true
    case Named(name, args) => IsSimpleName(name) && forall a :: a in args ==> IsSimple(a)
  }

  predicate IsFixedName(name: string) {
    name in ["string", "number", "boolean", "void", "unknown", "JsonValue", "Option", "Uncertain", "Secret",
             "Record", "Money", "Result"]
  }

  lemma FixedNamesAreSimple(name: string)
    requires IsFixedName(name)
    ensures IsSimpleName(name)
  {
    LettersIdentify();
    forall c | c in name ensures IsLower(c) || IsUpper(c) { LettersOfFixed(name, c); }
  }

  lemma LettersIdentify()
    ensures forall c :: IsLower(c) || IsUpper(c) ==> IsIdentifierChar(c) && !IsDigit(c)
  {}

  lemma LettersOfFixed(name: string, c: char)
    requires IsFixedName(name) && c in name
    ensures IsLower(c) || IsUpper(c)
  {}

  lemma FixedShapes(name: string)
    ensures ShapeOf(name).Leaf? ==> ShapeOf(name).ts == name || IsFixedName(ShapeOf(name).ts)
    ensures ShapeOf(name).OneArg? ==> IsFixedName(ShapeOf(name).ts) && IsFixedName(ShapeOf(name).missing)
  {}

  lemma BareIsSimple(name: string)
    requires IsSimpleName(name)
    ensures HasSimpleNames(Bare(name))
  {}

  lemma SimpleWithArgs(name: string, args: seq<TsType>)
    requires IsSimpleName(name) && forall a :: a in args ==> HasSimpleNames(a)
    ensures HasSimpleNames(TsName(name, args))
  {}

  lemma {:induction false} FormIsSimple(e: TypeExpr, isCurrency: string -> bool)
    requires IsSimple(e)
    ensures HasSimpleNames(ToTypeScript(e, isCurrency))
    decreases e
  {
    hide ShapeOf, IsSimpleName;
    match e
    case StringLiteral(_) =>
    case Named(name, args) =>
      forall i | 0 <= i < |args| ensures HasSimpleNames(ToTypeScript(args[i], isCurrency)) {
        FormIsSimple(args[i], isCurrency);
      }
      SimpleByShape(name, args, isCurrency);
  }

  lemma ArgIsSimple(args: seq<TypeExpr>, i: nat, missing: string, isCurrency: string -> bool)
    requires IsFixedName(missing) && forall k :: 0 <= k < |args| ==> HasSimpleNames(ToTypeScript(args[k], isCurrency))
    ensures HasSimpleNames(Arg(args, i, missing, isCurrency))
  {
    hide IsSimpleName, IsFixedName, ToTypeScript;
    FixedNamesAreSimple(missing);
    BareIsSimple(missing);
  }

  lemma SimpleByShape(name: string, args: seq<TypeExpr>, isCurrency: string -> bool)
    requires IsSimpleName(name) && forall i :: 0 <= i < |args| ==> HasSimpleNames(ToTypeScript(args[i], isCurrency))
    ensures HasSimpleNames(ToTypeScript(Named(name, args), isCurrency))
  {
    hide ShapeOf, IsSimpleName, HasSimpleNames, IsFixedName, Arg;
    TheFixedNames();
    FixedShapes(name);
    match ShapeOf(name)
    case Leaf(ts) =>
      if ts != name { FixedNamesAreSimple(ts); }
      BareIsSimple(ts);
    case ListOf =>
      ArgIsSimple(args, 0, "unknown", isCurrency);
      ArrayIsSimple(Arg(args, 0, "unknown", isCurrency));
    case BrandOf => ArgIsSimple(args, 0, "unknown", isCurrency);
    case MapOf =>
      var i := if |args| > 1 then 1 else 0;
      ArgIsSimple(args, i, "unknown", isCurrency);
      FixedNamesAreSimple("string");
      BareIsSimple("string");
      FixedNamesAreSimple("Record");
      SimpleWithArgs("Record", [Bare("string"), Arg(args, i, "unknown", isCurrency)]);
    case MoneyOf =>
      StringIsSimple();
      ArgIsSimple(args, 0, "string", isCurrency);
      FixedNamesAreSimple("Money");
      SimpleWithArgs("Money", [if IsCurrencyArg(args, isCurrency) then TsString(args[0].name)
                               else Arg(args, 0, "string", isCurrency)]);
    case OneArg(ts, missing) =>
      ArgIsSimple(args, 0, missing, isCurrency);
      FixedNamesAreSimple(ts);
      SimpleWithArgs(ts, [Arg(args, 0, missing, isCurrency)]);
    case ResultOf =>
      ArgIsSimple(args, 0, "unknown", isCurrency);
      ArgIsSimple(args, 1, "unknown", isCurrency);
      FixedNamesAreSimple("Result");
      SimpleWithArgs("Result", [Arg(args, 0, "unknown", isCurrency), Arg(args, 1, "unknown", isCurrency)]);
    case Other =>
      SimpleWithArgs(name, seq(|args|, i requires 0 <= i < |args| => ToTypeScript(args[i], isCurrency)));
  }

  lemma TheFixedNames()
    ensures IsFixedName("unknown") && IsFixedName("string") && IsFixedName("Record") && IsFixedName("Money")
            && IsFixedName("Result")
  {}

  lemma ArrayIsSimple(t: TsType)
    requires HasSimpleNames(t)
    ensures HasSimpleNames(TsArray(t))
  {}

  lemma StringIsSimple()
    ensures forall value :: HasSimpleNames(TsString(value))
  {}

  /** The identifiers of the emitted text are the names its form mentions. */
  lemma IdentifiersAreMentioned(e: TypeExpr, isCurrency: string -> bool, n: string)
    requires IsSimple(e)
    ensures n in Identifiers(Print(ToTypeScript(e, isCurrency))) <==> Mentions(ToTypeScript(e, isCurrency), n)
  {
    hide Lex, Print, ToTypeScript, IsSimple, Mentions, NamesIn, HasSimpleNames;
    var t := ToTypeScript(e, isCurrency);
    FormIsSimple(e, isCurrency);
    LexPrint(Lexer([], "", Code), t);
    assert [] + NamesIn(t) == NamesIn(t);
    NamesAreMentioned(t, n);
  }

  /** So the emitted text meets no wrapper that is not declared, with the one exception. */
  lemma TextCoverage(e: TypeExpr, isCurrency: string -> bool)
    requires WellFormed(e) && IsSimple(e)
    ensures (forall w :: Declares(w) in Identifiers(Print(ToTypeScript(e, isCurrency))) ==> w in Collected(Render(e)))
       <==> (EmitsJsonValue(e, isCurrency) ==> NameOccurs(e, "Json"))
  {
    hide *;
    WrapperCoverage(e, isCurrency);
    forall w: Wrapper
      ensures Declares(w) in Identifiers(Print(ToTypeScript(e, isCurrency))) <==>
              Mentions(ToTypeScript(e, isCurrency), Declares(w))
    {
      IdentifiersAreMentioned(e, isCurrency, Declares(w));
    }
  }
}
