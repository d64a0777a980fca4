/** The Java form of a type expression (`connector_sdk.rs`): primitives are boxed wherever
    Java allows only references. */
module JavaTypes {
  import opened Wrappers
  import opened Text
  import opened TypeExprs

  datatype JavaType = Java(name: string, args: seq<JavaType>)

  function Bare(name: string): JavaType { Java(name, []) }

  function Print(t: JavaType): string
    decreases t, 0
  {
    if t.args == [] then t.name else t.name + "<" + PrintArgs(t.args) + ">"
  }

  function PrintArgs(args: seq<JavaType>): string
    decreases args, 1
  {
    if |args| == 0 then ""
    else if |args| == 1 then Print(args[0])
    else Print(args[0]) + ", " + PrintArgs(args[1..])
  }

  // ---------- boxing ----------

  predicate IsPrimitive(name: string) { name in ["boolean", "long", "double", "void"] }

  /** `type_expr_to_java_boxed`, which compares the printed text. */
  function BoxText(text: string): string {
    match text
    case "boolean" => "Boolean"
    case "long" => "Long"
    case "double" => "Double"
    case "void" => "Void"
    case _ => text
  }

  function Box(t: JavaType): JavaType { if t.args == [] then Bare(BoxText(t.name)) else t }

  /** Comparing the text boxes exactly the bare primitives. */
  lemma BoxingTheText(t: JavaType)
    ensures BoxText(Print(t)) == Print(Box(t))
    ensures !(Box(t).args == [] && IsPrimitive(Box(t).name))
  {
    if t.args != [] {
      var text := Print(t);
      assert text[|t.name|] == '<';
      assert '<' in text;
      assert '<' !in "boolean" && '<' !in "long" && '<' !in "double" && '<' !in "void";
    }
  }

  // ---------- names ----------

  function Upper(c: char): char { if IsLower(c) then ((c as int - 32) as char) else c }

  /** Words run together, each with a capital first letter; `starts` says a word begins. */
  function Camel(name: string, starts: bool): (r: string)
    ensures forall c :: c in r ==> IsAlphanumeric(c)
    ensures starts && r != "" ==> !IsLower(r[0])
  {
    if name == "" then ""
    else if !IsAlphanumeric(name[0]) then Camel(name[1..], true)
    else [if starts then Upper(name[0]) else name[0]] + Camel(name[1..], false)
  }

  function JavaTypeNameOf(name: string, isReserved: string -> bool): string {
    var camel := Camel(name, true);
    var named := if camel == "" || IsDigit(camel[0]) then "Num" + camel else camel;
    if isReserved(named) then named + "Value" else named
  }

  method CamelCase(name: string) returns (out: string)
    ensures out == Camel(name, true)
  {
    hide IsAlphanumeric, Upper;
    out := "";
    var starts := true;
    for i := 0 to |name|
      invariant Camel(name, true) == out + Camel(name[i..], starts)
    {
      var c := name[i];
      CamelNext(name[i..], starts);
      assert name[i..][1..] == name[i + 1..];
      if IsAlphanumeric(c) {
        if starts {
          out := out + [Upper(c)];
          starts := false;
        } else {
          out := out + [c];
        }
      } else {
        starts := true;
      }
    }
  }

  lemma CamelNext(name: string, starts: bool)
    requires name != ""
    ensures IsAlphanumeric(name[0]) ==>
            Camel(name, starts) == [if starts then Upper(name[0]) else name[0]] + Camel(name[1..], false)
    ensures !IsAlphanumeric(name[0]) ==> Camel(name, starts) == Camel(name[1..], true)
  {}

  /** `java_type_name`. */
  method JavaTypeName(name: string, isReserved: string -> bool) returns (out: string)
    ensures out == JavaTypeNameOf(name, isReserved)
  {
    hide Camel;
    out := CamelCase(name);
    if out == "" || IsDigit(out[0]) {
      out := "Num" + out;
    }
    if isReserved(out) {
      out := out + "Value";
    }
  }

  /** A class name is an identifier that begins with a capital, so it is no primitive. */
  lemma ClassNamesAreCapital(name: string, isReserved: string -> bool)
    ensures var n := JavaTypeNameOf(name, isReserved);
            n != "" && IsUpper(n[0]) && !IsPrimitive(n) && forall c :: c in n ==> IsAlphanumeric(c)
  {
    var camel := Camel(name, true);
    assert camel != "" ==> camel[0] in camel;
  }

  // ---------- the mapping ----------

  datatype Shape = Leaf(java: string) | OneArg(java: string, missing: string) | MapOf | ResultOf | BrandOf | Other

  function ShapeOf(name: string): Shape {
    match name
    case "Text" | "Uuid" | "Date" | "DateTime" | "Decimal" | "Email" | "Url" | "PhoneNumber" => Leaf("String")
    case "Int" => Leaf("long")
    case "Float" => Leaf("double")
    case "Bool" => Leaf("boolean")
    case "Unit" => Leaf("void")
    case "Json" => Leaf("Object")
    case "Money" | "Document" | "Pdf" | "Docx" | "SpreadsheetSheet" | "Spreadsheet" | "Image" | "OcrResult" =>
      Leaf(name)
    case "List" => OneArg("List", "Object")
    case "Option" => OneArg("Optional", "Object")
    case "Uncertain" => OneArg("Uncertain", "Object")
    case "Secret" => OneArg("Secret", "String")
    case "Map" => MapOf
    case "Result" => ResultOf
    case "Brand" => BrandOf
    case _ => Other
  }

  function BoxedArg(args: seq<TypeExpr>, i: nat, missing: string, isReserved: string -> bool): JavaType
    decreases args, 1
  {
    if i < |args| then Box(ToJava(args[i], isReserved)) else Bare(missing)
  }

  /** `type_expr_to_java`. */
  function ToJava(e: TypeExpr, isReserved: string -> bool): JavaType
    decreases e, 2
  {
    match e
    case StringLiteral(_) => Bare("String")
    case Named(name, args) =>
      match ShapeOf(name)
      case Leaf(java) => Bare(java)
      case OneArg(java, missing) => Java(java, [BoxedArg(args, 0, missing, isReserved)])
      case MapOf => Java("Map", [Bare("String"), BoxedArg(args, if |args| > 1 then 1 else 0, "Object", isReserved)])
      case ResultOf => Java("Result",
                            [BoxedArg(args, 0, "Object", isReserved), BoxedArg(args, 1, "Object", isReserved)])
      case BrandOf => if args == [] then Bare("Object") else ToJava(args[0], isReserved)
      case Other => Java(JavaTypeNameOf(name, isReserved),
                         seq(|args|, i requires 0 <= i < |args| => Box(ToJava(args[i], isReserved))))
  }

  /** No type argument, at any depth, is a primitive. */
  ghost predicate IsReferenceGeneric(t: JavaType) {
    forall a :: a in t.args ==> !(a.args == [] && IsPrimitive(a.name)) && IsReferenceGeneric(a)
  }

  lemma BoxKeeps(t: JavaType)
    requires IsReferenceGeneric(t)
    ensures IsReferenceGeneric(Box(t)) && !(Box(t).args == [] && IsPrimitive(Box(t).name))
  {
    BoxingTheText(t);
  }

  lemma MissingIsReference(missing: string)
    requires missing in ["Object", "String"]
    ensures IsReferenceGeneric(Bare(missing)) && !IsPrimitive(missing)
  {}

  ghost predicate IsArgument(a: JavaType) { IsReferenceGeneric(a) && !(a.args == [] && IsPrimitive(a.name)) }

  lemma ArgumentsMakeGeneric(name: string, args: seq<JavaType>)
    requires forall a :: a in args ==> IsArgument(a)
    ensures IsReferenceGeneric(Java(name, args))
  {}

  lemma MissingOf(name: string)
    ensures ShapeOf(name).OneArg? ==> ShapeOf(name).missing in ["Object", "String"]
  {}

  lemma BoxedArgIsArgument(args: seq<TypeExpr>, i: nat, missing: string, isReserved: string -> bool)
    requires i < |args| ==> IsArgument(Box(ToJava(args[i], isReserved)))
    requires missing in ["Object", "String"]
    ensures IsArgument(BoxedArg(args, i, missing, isReserved))
  {
    hide IsReferenceGeneric, Box, IsPrimitive, ToJava;
    MissingIsReference(missing);
  }

  /** Java has no generics over primitives, and the mapping never prints one. */
  lemma {:induction false} NoPrimitiveArguments(e: TypeExpr, isReserved: string -> bool)
    ensures IsReferenceGeneric(ToJava(e, isReserved))
  {
    hide IsReferenceGeneric, JavaTypeNameOf, Box, BoxedArg, IsPrimitive, ShapeOf;
    match e
    case StringLiteral(_) => ArgumentsMakeGeneric("String", []);
    case Named(name, args) =>
      forall i | 0 <= i < |args| ensures IsArgument(Box(ToJava(args[i], isReserved))) {
        NoPrimitiveArguments(args[i], isReserved);
        BoxKeeps(ToJava(args[i], isReserved));
      }
      match ShapeOf(name)
      case Leaf(java) => ArgumentsMakeGeneric(java, []);
      case OneArg(java, missing) =>
        MissingOf(name);
        BoxedArgIsArgument(args, 0, missing, isReserved);
        ArgumentsMakeGeneric(java, [BoxedArg(args, 0, missing, isReserved)]);
      case MapOf =>
        var i := if |args| > 1 then 1 else 0;
        MissingIsReference("String");
        BoxedArgIsArgument(args, i, "Object", isReserved);
        ArgumentsMakeGeneric("Map", [Bare("String"), BoxedArg(args, i, "Object", isReserved)]);
      case ResultOf =>
        BoxedArgIsArgument(args, 0, "Object", isReserved);
        BoxedArgIsArgument(args, 1, "Object", isReserved);
        ArgumentsMakeGeneric("Result",
                             [BoxedArg(args, 0, "Object", isReserved), BoxedArg(args, 1, "Object", isReserved)]);
      case BrandOf =>
        ArgumentsMakeGeneric("Object", []);
        if args != [] { NoPrimitiveArguments(args[0], isReserved); }
      case Other => ArgumentsMakeGeneric(JavaTypeNameOf(name, isReserved), ToJava(e, isReserved).args);
  }
}
