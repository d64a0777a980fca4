/** The TypeScript and the Java form of one type expression, against each other
    (`connector_sdk.rs`). */
module TypeForms {
  import opened Text
  import opened TypeExprs
  import TypeScriptTypes
  import JavaTypes

  datatype Kind = Words | Number | Truth | Nothing | Anything | Declared(name: string)

  /** What a plain TypeScript name stands for. */
  function TypeScriptKind(name: string): Kind {
    match name
    case "string" => Words
    case "number" => Number
    case "boolean" => Truth
    case "void" => Nothing
    case "unknown" | "JsonValue" => Anything
    case _ => Declared(name)
  }

  /** What a plain Java name stands for, boxed or not. */
  function JavaKind(name: string): Kind {
    match name
    case "String" => Words
    case "long" | "double" | "Long" | "Double" => Number
    case "boolean" | "Boolean" => Truth
    case "void" | "Void" => Nothing
    case "Object" => Anything
    case _ => Declared(name)
  }

  /** Two forms say the same: plain names of one kind, the same wrapper of the same things, or
      one type of the program with the same arguments. */
  ghost predicate Agree(t: TypeScriptTypes.TsType, j: JavaTypes.JavaType, isReserved: string -> bool)
    decreases t
  {
    match t
    case TsString(_) => j == JavaTypes.Bare("String")
    case TsArray(element) => j.name == "List" && |j.args| == 1 && Agree(element, j.args[0], isReserved)
    case TsName(name, args) =>
      || (args == [] && j.args == [] && TypeScriptKind(name) == JavaKind(j.name))
      || (name == j.name == "Money" && |args| == 1 && j.args == [])
      || (|args| == |j.args| && SameHead(name, j.name, args, j.args)
          && forall i :: 0 <= i < |args| ==> Agree(args[i], j.args[i], isReserved))
      || (|args| == |j.args| && j.name == JavaTypes.JavaTypeNameOf(name, isReserved)
          && forall i :: 0 <= i < |args| ==> Agree(args[i], j.args[i], isReserved))
  }

  /** The wrappers, by the names they have on both sides. */
  predicate SameHead(name: string, java: string, args: seq<TypeScriptTypes.TsType>, javaArgs: seq<JavaTypes.JavaType>) {
    || (|args| == 1 && (name, java) in [("Option", "Optional"), ("Uncertain", "Uncertain"), ("Secret", "Secret")])
    || (|args| == 2 && (name, java) in [("Record", "Map"), ("Result", "Result")])
  }

  /** No `Url` or `PhoneNumber` where it would be emitted: the one form makes them strings and the
      other passes them on. */
  predicate IsMappedAlike(e: TypeExpr)
    decreases e
  {
    match e
    case StringLiteral(_) => true
    case Named(name, args) =>
      match name
      case "Url" | "PhoneNumber" => false
      case "List" | "Option" | "Uncertain" | "Secret" | "Brand" => args == [] || IsMappedAlike(args[0])
      case "Map" => args == [] || IsMappedAlike(args[if |args| > 1 then 1 else 0])
      case "Result" => (|args| > 0 ==> IsMappedAlike(args[0])) && (|args| > 1 ==> IsMappedAlike(args[1]))
      case "Text" | "Uuid" | "Date" | "DateTime" | "Decimal" | "Email" | "Int" | "Float" | "Bool" | "Unit" | "Json" =>
        true
      case "Money" | "Document" | "Pdf" | "Docx" | "SpreadsheetSheet" | "Spreadsheet" | "Image" | "OcrResult" => true
      case _ => forall a :: a in args ==> IsMappedAlike(a)
  }

  ghost predicate FormsAgree(e: TypeExpr, isCurrency: string -> bool, isReserved: string -> bool) {
    Agree(TypeScriptTypes.ToTypeScript(e, isCurrency), JavaTypes.ToJava(e, isReserved), isReserved)
  }

  // ---------- boxed arguments ----------

  predicate IsPrimitiveForm(j: JavaTypes.JavaType) { j.args == [] && j.name in ["boolean", "long", "double", "void"] }

  lemma OnlyPrimitivesAreBoxed(j: JavaTypes.JavaType)
    ensures IsPrimitiveForm(j) || JavaTypes.Box(j) == j
  {}

  lemma KindIsBoxed(t: TypeScriptTypes.TsType, j: JavaTypes.JavaType, isReserved: string -> bool)
    requires IsPrimitiveForm(j) && t.TsName? && t.args == [] && TypeScriptKind(t.name) == JavaKind(j.name)
    ensures Agree(t, j, isReserved) && Agree(t, JavaTypes.Box(j), isReserved)
  {}

  /** A primitive stands for the same kind of thing on both sides. */
  lemma {:induction false} PrimitivesAgree(e: TypeExpr, isCurrency: string -> bool, isReserved: string -> bool)
    requires IsPrimitiveForm(JavaTypes.ToJava(e, isReserved))
    ensures var t, j := TypeScriptTypes.ToTypeScript(e, isCurrency), JavaTypes.ToJava(e, isReserved);
            t.TsName? && t.args == [] && TypeScriptKind(t.name) == JavaKind(j.name)
    decreases e
  {
    hide JavaTypes.JavaTypeNameOf;
    if e.Named? && JavaTypes.ShapeOf(e.name).Other? {
      JavaTypes.ClassNamesAreCapital(e.name, isReserved);
    }
    if e.Named? && e.name == "Brand" && e.args != [] {
      PrimitivesAgree(e.args[0], isCurrency, isReserved);
    }
  }

  lemma BoxedAgrees(e: TypeExpr, isCurrency: string -> bool, isReserved: string -> bool)
    ensures Agree(TypeScriptTypes.ToTypeScript(e, isCurrency), JavaTypes.Box(JavaTypes.ToJava(e, isReserved)),
                  isReserved)
       <==> FormsAgree(e, isCurrency, isReserved)
  {
    hide Agree, JavaTypes.Box, JavaTypes.ToJava, TypeScriptTypes.ToTypeScript, IsPrimitiveForm, TypeScriptKind,
      JavaKind;
    var t, j := TypeScriptTypes.ToTypeScript(e, isCurrency), JavaTypes.ToJava(e, isReserved);
    OnlyPrimitivesAreBoxed(j);
    if IsPrimitiveForm(j) {
      PrimitivesAgree(e, isCurrency, isReserved);
      KindIsBoxed(t, j, isReserved);
    }
  }

  /** What argument `i` comes to on both sides, or what stands in for it. */
  lemma ArgsAgree(args: seq<TypeExpr>, i: nat, missing: string, java: string,
                  isCurrency: string -> bool, isReserved: string -> bool)
    requires TypeScriptKind(missing) == JavaKind(java)
    ensures Agree(TypeScriptTypes.Arg(args, i, missing, isCurrency), JavaTypes.BoxedArg(args, i, java, isReserved),
                  isReserved)
       <==> (i < |args| ==> FormsAgree(args[i], isCurrency, isReserved))
  {
    hide JavaTypes.Box, JavaTypes.ToJava, TypeScriptTypes.ToTypeScript, Agree;
    if i < |args| {
      BoxedAgrees(args[i], isCurrency, isReserved);
    } else {
      PlainNamesAgree(missing, java, isReserved);
    }
  }

  lemma PlainNamesAgree(name: string, java: string, isReserved: string -> bool)
    requires TypeScriptKind(name) == JavaKind(java)
    ensures Agree(TypeScriptTypes.Bare(name), JavaTypes.Bare(java), isReserved)
  {}

  // ---------- case by case ----------

  lemma OneWrapped(head: string, java: string, t: TypeScriptTypes.TsType, j: JavaTypes.JavaType,
                   isReserved: string -> bool)
    requires (head, java) in [("Option", "Optional"), ("Uncertain", "Uncertain"), ("Secret", "Secret")]
    ensures Agree(TypeScriptTypes.TsName(head, [t]), JavaTypes.Java(java, [j]), isReserved) <==> Agree(t, j, isReserved)
  {
    hide JavaTypes.JavaTypeNameOf, TypeScriptKind, JavaKind;
    var ts, js := [t], [j];
    assert ts[0] == t && js[0] == j;
  }

  lemma TwoWrapped(head: string, java: string, ts: seq<TypeScriptTypes.TsType>, js: seq<JavaTypes.JavaType>,
                   isReserved: string -> bool)
    requires (head, java) in [("Record", "Map"), ("Result", "Result")] && |ts| == |js| == 2
    ensures Agree(TypeScriptTypes.TsName(head, ts), JavaTypes.Java(java, js), isReserved) <==>
            Agree(ts[0], js[0], isReserved) && Agree(ts[1], js[1], isReserved)
  {
    hide JavaTypes.JavaTypeNameOf, TypeScriptKind, JavaKind;
  }

  lemma ListForms(name: string, args: seq<TypeExpr>, isCurrency: string -> bool, isReserved: string -> bool)
    requires name == "List"
    requires forall i :: 0 <= i < |args| ==>
               (FormsAgree(args[i], isCurrency, isReserved) <==> IsMappedAlike(args[i]))
    ensures FormsAgree(Named(name, args), isCurrency, isReserved) <==> IsMappedAlike(Named(name, args))
  {
    hide Agree, TypeScriptTypes.Arg, JavaTypes.BoxedArg;
    ArgsAgree(args, 0, "unknown", "Object", isCurrency, isReserved);
    ArrayAgrees(TypeScriptTypes.Arg(args, 0, "unknown", isCurrency), JavaTypes.BoxedArg(args, 0, "Object", isReserved),
                isReserved);
  }

  lemma ArrayAgrees(t: TypeScriptTypes.TsType, j: JavaTypes.JavaType, isReserved: string -> bool)
    ensures Agree(TypeScriptTypes.TsArray(t), JavaTypes.Java("List", [j]), isReserved) <==> Agree(t, j, isReserved)
  {}

  lemma WrapperForms(name: string, args: seq<TypeExpr>, isCurrency: string -> bool, isReserved: string -> bool)
    requires name in ["Option", "Uncertain", "Secret"]
    requires forall i :: 0 <= i < |args| ==>
               (FormsAgree(args[i], isCurrency, isReserved) <==> IsMappedAlike(args[i]))
    ensures FormsAgree(Named(name, args), isCurrency, isReserved) <==> IsMappedAlike(Named(name, args))
  {
    hide Agree, TypeScriptTypes.Arg, JavaTypes.BoxedArg;
    match name
    case "Secret" =>
      ArgsAgree(args, 0, "string", "String", isCurrency, isReserved);
      OneWrapped("Secret", "Secret", TypeScriptTypes.Arg(args, 0, "string", isCurrency),
                 JavaTypes.BoxedArg(args, 0, "String", isReserved), isReserved);
    case "Option" =>
      ArgsAgree(args, 0, "unknown", "Object", isCurrency, isReserved);
      OneWrapped("Option", "Optional", TypeScriptTypes.Arg(args, 0, "unknown", isCurrency),
                 JavaTypes.BoxedArg(args, 0, "Object", isReserved), isReserved);
    case _ =>
      ArgsAgree(args, 0, "unknown", "Object", isCurrency, isReserved);
      OneWrapped("Uncertain", "Uncertain", TypeScriptTypes.Arg(args, 0, "unknown", isCurrency),
                 JavaTypes.BoxedArg(args, 0, "Object", isReserved), isReserved);
  }

  lemma BrandForms(name: string, args: seq<TypeExpr>, isCurrency: string -> bool, isReserved: string -> bool)
    requires name == "Brand"
    requires forall i :: 0 <= i < |args| ==>
               (FormsAgree(args[i], isCurrency, isReserved) <==> IsMappedAlike(args[i]))
    ensures FormsAgree(Named(name, args), isCurrency, isReserved) <==> IsMappedAlike(Named(name, args))
  {
    hide Agree;
    var e := Named(name, args);
    if args == [] {
      PlainNamesAgree("unknown", "Object", isReserved);
      assert TypeScriptTypes.ToTypeScript(e, isCurrency) == TypeScriptTypes.Bare("unknown");
    } else {
      assert TypeScriptTypes.ToTypeScript(e, isCurrency) == TypeScriptTypes.ToTypeScript(args[0], isCurrency);
      assert JavaTypes.ToJava(e, isReserved) == JavaTypes.ToJava(args[0], isReserved);
    }
  }

  lemma MapForms(name: string, args: seq<TypeExpr>, isCurrency: string -> bool, isReserved: string -> bool)
    requires name == "Map"
    requires forall i :: 0 <= i < |args| ==>
               (FormsAgree(args[i], isCurrency, isReserved) <==> IsMappedAlike(args[i]))
    ensures FormsAgree(Named(name, args), isCurrency, isReserved) <==> IsMappedAlike(Named(name, args))
  {
    hide Agree, TypeScriptTypes.Arg, JavaTypes.BoxedArg;
    var i := if |args| > 1 then 1 else 0;
    ArgsAgree(args, i, "unknown", "Object", isCurrency, isReserved);
    PlainNamesAgree("string", "String", isReserved);
    TwoWrapped("Record", "Map", [TypeScriptTypes.Bare("string"), TypeScriptTypes.Arg(args, i, "unknown", isCurrency)],
               [JavaTypes.Bare("String"), JavaTypes.BoxedArg(args, i, "Object", isReserved)], isReserved);
  }

  lemma ResultForms(name: string, args: seq<TypeExpr>, isCurrency: string -> bool, isReserved: string -> bool)
    requires name == "Result"
    requires forall i :: 0 <= i < |args| ==>
               (FormsAgree(args[i], isCurrency, isReserved) <==> IsMappedAlike(args[i]))
    ensures FormsAgree(Named(name, args), isCurrency, isReserved) <==> IsMappedAlike(Named(name, args))
  {
    hide Agree, TypeScriptTypes.Arg, JavaTypes.BoxedArg;
    ArgsAgree(args, 0, "unknown", "Object", isCurrency, isReserved);
    ArgsAgree(args, 1, "unknown", "Object", isCurrency, isReserved);
    TwoWrapped("Result", "Result",
               [TypeScriptTypes.Arg(args, 0, "unknown", isCurrency),
                TypeScriptTypes.Arg(args, 1, "unknown", isCurrency)],
               [JavaTypes.BoxedArg(args, 0, "Object", isReserved), JavaTypes.BoxedArg(args, 1, "Object", isReserved)],
               isReserved);
  }

  lemma LeafForms(name: string, args: seq<TypeExpr>, isCurrency: string -> bool, isReserved: string -> bool)
    requires TypeScriptTypes.ShapeOf(name).Leaf?
    requires forall i :: 0 <= i < |args| ==>
               (FormsAgree(args[i], isCurrency, isReserved) <==> IsMappedAlike(args[i]))
    ensures FormsAgree(Named(name, args), isCurrency, isReserved) <==> IsMappedAlike(Named(name, args))
  {
    hide JavaTypes.JavaTypeNameOf, Agree, TypeScriptKind, JavaKind;
    LeafKinds(name);
    PlainNamesAgree(TypeScriptTypes.ShapeOf(name).ts, JavaTypes.ShapeOf(name).java, isReserved);
  }

  /** Every built-in leaf is of one kind on both sides. */
  lemma LeafKinds(name: string)
    requires TypeScriptTypes.ShapeOf(name).Leaf?
    ensures JavaTypes.ShapeOf(name).Leaf? && IsMappedAlike(Named(name, []))
    ensures TypeScriptKind(TypeScriptTypes.ShapeOf(name).ts) == JavaKind(JavaTypes.ShapeOf(name).java)
  {}

  lemma MoneyForms(name: string, args: seq<TypeExpr>, isCurrency: string -> bool, isReserved: string -> bool)
    requires name == "Money"
    requires forall i :: 0 <= i < |args| ==>
               (FormsAgree(args[i], isCurrency, isReserved) <==> IsMappedAlike(args[i]))
    ensures FormsAgree(Named(name, args), isCurrency, isReserved) <==> IsMappedAlike(Named(name, args))
  {
    hide JavaTypes.JavaTypeNameOf, TypeScriptTypes.Arg;
  }

  lemma UnlikeForms(name: string, args: seq<TypeExpr>, isCurrency: string -> bool, isReserved: string -> bool)
    requires name in ["Url", "PhoneNumber"]
    requires forall i :: 0 <= i < |args| ==>
               (FormsAgree(args[i], isCurrency, isReserved) <==> IsMappedAlike(args[i]))
    ensures FormsAgree(Named(name, args), isCurrency, isReserved) <==> IsMappedAlike(Named(name, args))
  {
    hide JavaTypes.JavaTypeNameOf;
    UnlikeNames(isReserved);
  }

  lemma UnlikeNames(isReserved: string -> bool)
    ensures JavaTypes.JavaTypeNameOf("Url", isReserved) != "String"
    ensures JavaTypes.JavaTypeNameOf("PhoneNumber", isReserved) != "String"
  {
    assert "Url"[0] == 'U' && "PhoneNumber"[0] == 'P' && "String"[0] == 'S';
  }

  lemma OtherIsMapped(name: string, args: seq<TypeExpr>)
    requires TypeScriptTypes.ShapeOf(name).Other? && name !in ["Url", "PhoneNumber"]
    ensures IsMappedAlike(Named(name, args)) <==> forall i :: 0 <= i < |args| ==> IsMappedAlike(args[i])
  {
    assert IsMappedAlike(Named(name, args)) <==> forall a :: a in args ==> IsMappedAlike(a);
  }

  lemma OtherForms(name: string, args: seq<TypeExpr>, isCurrency: string -> bool, isReserved: string -> bool)
    requires TypeScriptTypes.ShapeOf(name).Other? && name !in ["Url", "PhoneNumber"]
    requires forall i :: 0 <= i < |args| ==>
               (FormsAgree(args[i], isCurrency, isReserved) <==> IsMappedAlike(args[i]))
    ensures FormsAgree(Named(name, args), isCurrency, isReserved) <==> IsMappedAlike(Named(name, args))
  {
    hide JavaTypes.JavaTypeNameOf, Agree, JavaTypes.Box, IsMappedAlike;
    var ts := seq(|args|, i requires 0 <= i < |args| => TypeScriptTypes.ToTypeScript(args[i], isCurrency));
    var js := seq(|args|, i requires 0 <= i < |args| => JavaTypes.Box(JavaTypes.ToJava(args[i], isReserved)));
    forall i | 0 <= i < |args| ensures Agree(ts[i], js[i], isReserved) <==> IsMappedAlike(args[i]) {
      BoxedAgrees(args[i], isCurrency, isReserved);
    }
    OtherIsMapped(name, args);
    NamedAgrees(name, ts, js, isReserved);
  }

  lemma NamedAgrees(name: string, ts: seq<TypeScriptTypes.TsType>, js: seq<JavaTypes.JavaType>,
                    isReserved: string -> bool)
    requires |ts| == |js| && name != "Money"
    ensures Agree(TypeScriptTypes.TsName(name, ts), JavaTypes.Java(JavaTypes.JavaTypeNameOf(name, isReserved), js),
                  isReserved)
       <==> forall i :: 0 <= i < |ts| ==> Agree(ts[i], js[i], isReserved)
  {
    hide JavaTypes.JavaTypeNameOf;
  }

  /** The two forms of an expression say the same exactly if it emits no `Url` and no
      `PhoneNumber`. */
  lemma {:induction false} FormsSayTheSame(e: TypeExpr, isCurrency: string -> bool, isReserved: string -> bool)
    ensures FormsAgree(e, isCurrency, isReserved) <==> IsMappedAlike(e)
    decreases e
  {
    hide FormsAgree, IsMappedAlike;
    match e
    case StringLiteral(value) => LiteralForms(value, isCurrency, isReserved);
    case Named(name, args) =>
      forall i | 0 <= i < |args| ensures FormsAgree(args[i], isCurrency, isReserved) <==> IsMappedAlike(args[i]) {
        FormsSayTheSame(args[i], isCurrency, isReserved);
      }
      NamedForms(name, args, isCurrency, isReserved);
  }

  lemma LiteralForms(value: string, isCurrency: string -> bool, isReserved: string -> bool)
    ensures FormsAgree(StringLiteral(value), isCurrency, isReserved) && IsMappedAlike(StringLiteral(value))
  {}

  lemma NamedForms(name: string, args: seq<TypeExpr>, isCurrency: string -> bool, isReserved: string -> bool)
    requires forall i :: 0 <= i < |args| ==>
               (FormsAgree(args[i], isCurrency, isReserved) <==> IsMappedAlike(args[i]))
    ensures FormsAgree(Named(name, args), isCurrency, isReserved) <==> IsMappedAlike(Named(name, args))
  {
    hide *;
    match name
    case "List" => ListForms(name, args, isCurrency, isReserved);
    case "Option" | "Uncertain" | "Secret" => WrapperForms(name, args, isCurrency, isReserved);
    case "Brand" => BrandForms(name, args, isCurrency, isReserved);
    case "Map" => MapForms(name, args, isCurrency, isReserved);
    case "Result" => ResultForms(name, args, isCurrency, isReserved);
    case "Money" => MoneyForms(name, args, isCurrency, isReserved);
    case "Url" | "PhoneNumber" => UnlikeForms(name, args, isCurrency, isReserved);
    case _ =>
      PlainShape(name);
      if TypeScriptTypes.ShapeOf(name).Leaf? {
        LeafForms(name, args, isCurrency, isReserved);
      } else {
        OtherForms(name, args, isCurrency, isReserved);
      }
  }

  lemma PlainShape(name: string)
    requires name !in ["List", "Option", "Uncertain", "Secret", "Brand", "Map", "Result", "Money"]
    ensures TypeScriptTypes.ShapeOf(name).Leaf? || TypeScriptTypes.ShapeOf(name).Other?
  {}
}
