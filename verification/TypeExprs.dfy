/** Type expressions of the connector SDK: printer, parser and argument scanner
    (`connector_sdk.rs`). */
module TypeExprs {
  import opened Wrappers
  import opened Text

  datatype TypeExpr = Named(name: string, args: seq<TypeExpr>) | StringLiteral(value: string)

  // ---------- printing ----------

  /** `TypeExpr::render`. */
  function Render(e: TypeExpr): string
    decreases e, 0
  {
    match e
    case StringLiteral(value) => "\"" + value + "\""
    case Named(name, args) => if args == [] then name else name + "<" + RenderArgs(args) + ">"
  }

  function RenderArgs(args: seq<TypeExpr>): string
    decreases args, 1
  {
    if |args| == 0 then ""
    else if |args| == 1 then Render(args[0])
    else Render(args[0]) + ", " + RenderArgs(args[1..])
  }

  // ---------- the scanner ----------

  datatype Scan = Scan(args: seq<string>, current: string, depth: nat, inString: bool, prevEscape: bool) {
    /** Close the current argument, if there is any. */
    function Cut(): Scan {
      this.(args := if Trim(current) != "" then args + [Trim(current)] else args, current := "")
    }

    function Push(c: char): Scan { this.(current := current + [c]) }
  }

  const EMPTY_SCAN: Scan := Scan([], "", 0, false, false)

  /** One turn of the loop of `split_generic_args`. */
  function Step(s: Scan, c: char): Scan {
    if s.inString then
      s.Push(c).(inString := !(c == '"' && !s.prevEscape), prevEscape := c == '\\' && !s.prevEscape)
    else
      var t :=
        if c == '"' then s.Push(c).(inString := true)
        else if c == '<' then s.Push(c).(depth := s.depth + 1)
        else if c == '>' then s.Push(c).(depth := if s.depth > 0 then s.depth - 1 else 0)
        else if c == ',' && s.depth == 0 then s.Cut()
        else s.Push(c);
      if c != '\\' then t.(prevEscape := false) else t
  }

  function ScanAll(s: Scan, raw: string): Scan
    decreases |raw|
  {
    if raw == "" then s else ScanAll(Step(s, raw[0]), raw[1..])
  }

  function SplitArgs(raw: string): seq<string> {
    ScanAll(EMPTY_SCAN, raw).Cut().args
  }

  /** `split_generic_args`. */
  method SplitGenericArgs(raw: string) returns (args: seq<string>)
    ensures args == SplitArgs(raw)
  {
    args := [];
    var current, depth: nat, inString, prevEscape := "", 0, false, false;
    for i := 0 to |raw|
      invariant ScanAll(EMPTY_SCAN, raw) == ScanAll(Scan(args, current, depth, inString, prevEscape), raw[i..])
    {
      var c := raw[i];
      assert raw[i..][1..] == raw[i + 1..];
      if inString {
        current := current + [c];
        if c == '"' && !prevEscape {
          inString := false;
        }
        prevEscape := c == '\\' && !prevEscape;
        continue;
      }
      if c == '"' {
        inString := true;
        current := current + [c];
      } else if c == '<' {
        depth := depth + 1;
        current := current + [c];
      } else if c == '>' {
        depth := if depth > 0 then depth - 1 else 0;
        current := current + [c];
      } else if c == ',' && depth == 0 {
        if Trim(current) != "" {
          args := args + [Trim(current)];
        }
        current := "";
      } else {
        current := current + [c];
      }
      if c != '\\' {
        prevEscape := false;
      }
    }
    assert raw[|raw|..] == "";
    if Trim(current) != "" {
      args := args + [Trim(current)];
    }
  }

  lemma {:induction false} ScanAllConcat(s: Scan, a: string, b: string)
    ensures ScanAll(s, a + b) == ScanAll(ScanAll(s, a), b)
    decreases |a|
  {
    hide Step;
    if a == "" {
      assert a + b == b;
    } else {
      assert (a + b)[1..] == a[1..] + b;
      ScanAllConcat(Step(s, a[0]), a[1..], b);
    }
  }

  // ---------- parsing ----------

  function TotalLength(args: seq<string>): nat {
    if |args| == 0 then 0 else TotalLength(args[..|args| - 1]) + |args[|args| - 1]|
  }

  lemma {:induction false} EachWithinTotal(args: seq<string>)
    ensures forall i :: 0 <= i < |args| ==> |args[i]| <= TotalLength(args)
  {
    if args != [] {
      EachWithinTotal(args[..|args| - 1]);
    }
  }

  lemma CutLength(s: Scan)
    ensures TotalLength(s.Cut().args) <= TotalLength(s.args) + |s.current|
  {
    assert (s.args + [Trim(s.current)])[..|s.args|] == s.args;
  }

  lemma {:induction false} ScanLength(s: Scan, raw: string)
    ensures var t := ScanAll(s, raw);
            TotalLength(t.args) + |t.current| <= TotalLength(s.args) + |s.current| + |raw|
    decreases |raw|
  {
    hide TotalLength, Trim;
    if raw != "" {
      CutLength(s);
      ScanLength(Step(s, raw[0]), raw[1..]);
    }
  }

  lemma SplitArgsAreShort(raw: string)
    ensures forall i :: 0 <= i < |SplitArgs(raw)| ==> |SplitArgs(raw)[i]| <= |raw|
  {
    hide ScanAll, Trim;
    ScanLength(EMPTY_SCAN, raw);
    CutLength(ScanAll(EMPTY_SCAN, raw));
    EachWithinTotal(SplitArgs(raw));
  }

  /** The text between outer quotes. */
  function Unquoted(raw: string): Option<string> {
    if |raw| >= 2 && raw[0] == '"' && raw[|raw| - 1] == '"' then Some(raw[1..|raw| - 1]) else None
  }

  function StripClosing(rest: string): (inner: string)
    ensures |inner| <= |rest|
  {
    if EndsWith(rest, '>') then rest[..|rest| - 1] else rest
  }

  /** `parse_type_expr`. */
  function Parse(text: string): TypeExpr
    decreases |text|
  {
    var raw := Trim(text);
    if Unquoted(raw).Some? then StringLiteral(Unquoted(raw).value)
    else
      match SplitOnce(raw, '<')
      case None => Named(raw, [])
      case Some((name, rest)) =>
        var pieces := SplitArgs(StripClosing(rest));
        SplitArgsAreShort(StripClosing(rest));
        Named(Trim(name), seq(|pieces|, i requires 0 <= i < |pieces| => Parse(pieces[i])))
  }

  // ---------- well-formed expressions ----------

  predicate IsTypeName(name: string) {
    && name != "" && IsTrimmed(name)
    && '<' !in name && '>' !in name && ',' !in name && '"' !in name
  }

  function TrailingBackslashes(v: string): nat {
    if v != "" && v[|v| - 1] == '\\' then 1 + TrailingBackslashes(v[..|v| - 1]) else 0
  }

  /** A literal whose closing quote is not taken for an escaped one. */
  predicate IsLiteral(value: string) {
    '"' !in value && TrailingBackslashes(value) % 2 == 0
  }

  predicate WellFormed(e: TypeExpr) {
    match e
    case StringLiteral(value) => IsLiteral(value)
    case Named(name, args) => IsTypeName(name) && forall a :: a in args ==> WellFormed(a)
  }

  // ---------- scanning a printed expression ----------

  function Pushed(s: Scan, text: string): Scan { s.(current := s.current + text) }

  lemma PushedConcat(s: Scan, a: string, b: string)
    ensures Pushed(Pushed(s, a), b) == Pushed(s, a + b)
  {
    assert s.current + a + b == s.current + (a + b);
  }

  predicate Inert(c: char, depth: nat) {
    c !in {'"', '<', '>', ','} || (c == ',' && depth > 0)
  }

  /** Outside strings, characters without meaning are taken as they are. */
  lemma {:induction false} ScanPlain(s: Scan, text: string)
    requires !s.inString && !s.prevEscape && forall c :: c in text ==> Inert(c, s.depth)
    ensures ScanAll(s, text) == Pushed(s, text)
    decreases |text|
  {
    if text == "" {
      assert s.current + text == s.current;
    } else {
      assert text[0] in text && Inert(text[0], s.depth);
      assert Step(s, text[0]) == Pushed(s, text[..1]);
      ScanPlain(Pushed(s, text[..1]), text[1..]);
      PushedConcat(s, text[..1], text[1..]);
      assert text[..1] + text[1..] == text;
    }
  }

  /** Whether a string ends in an open escape. */
  function EscapeAfter(prev: bool, v: string): bool
    decreases |v|
  {
    if v == "" then prev else EscapeAfter(v[0] == '\\' && !prev, v[1..])
  }

  lemma {:induction false} EscapeAfterLast(prev: bool, v: string, c: char)
    ensures EscapeAfter(prev, v + [c]) == (c == '\\' && !EscapeAfter(prev, v))
    decreases |v|
  {
    if v == "" {
      assert v + [c] == [c] && [c][1..] == "";
    } else {
      assert (v + [c])[1..] == v[1..] + [c];
      EscapeAfterLast(v[0] == '\\' && !prev, v[1..], c);
    }
  }

  lemma {:induction false} EscapeIsOddTail(v: string)
    ensures EscapeAfter(false, v) <==> TrailingBackslashes(v) % 2 == 1
    decreases |v|
  {
    if v != "" {
      var n := |v| - 1;
      assert v == v[..n] + [v[n]];
      EscapeAfterLast(false, v[..n], v[n]);
      EscapeIsOddTail(v[..n]);
    }
  }

  lemma {:induction false} ScanInsideString(s: Scan, v: string)
    requires s.inString && '"' !in v
    ensures ScanAll(s, v) == Pushed(s, v).(prevEscape := EscapeAfter(s.prevEscape, v))
    decreases |v|
  {
    if v == "" {
      assert s.current + v == s.current;
    } else {
      ScanInsideString(Step(s, v[0]), v[1..]);
      assert s.current + [v[0]] + v[1..] == s.current + v;
    }
  }

  lemma ScanOpen(s: Scan)
    requires !s.inString && !s.prevEscape
    ensures ScanAll(s, "<") == Pushed(s, "<").(depth := s.depth + 1)
  {
    assert "<"[1..] == "";
  }

  lemma ScanClose(s: Scan)
    requires !s.inString && !s.prevEscape && s.depth > 0
    ensures ScanAll(s, ">") == Pushed(s, ">").(depth := s.depth - 1)
  {
    assert ">"[1..] == "";
  }

  lemma ScanComma(s: Scan)
    requires !s.inString && !s.prevEscape && s.depth == 0
    ensures ScanAll(s, ",") == s.Cut()
  {
    assert ","[1..] == "";
  }

  lemma ScanQuote(s: Scan)
    requires !s.prevEscape
    ensures ScanAll(s, "\"") == Pushed(s, "\"").(inString := !s.inString)
  {
    assert "\""[1..] == "";
  }

  lemma ScanThree(s: Scan, a: string, b: string, c: string)
    ensures ScanAll(s, a + b + c) == ScanAll(ScanAll(ScanAll(s, a), b), c)
  {
    ScanAllConcat(s, a + b, c);
    ScanAllConcat(s, a, b);
  }

  lemma ScanLiteral(s: Scan, value: string)
    requires !s.inString && !s.prevEscape && IsLiteral(value)
    ensures ScanAll(s, "\"" + value + "\"") == Pushed(s, "\"" + value + "\"")
  {
    hide ScanAll, Step;
    var open := Pushed(s, "\"").(inString := true);
    ScanThree(s, "\"", value, "\"");
    ScanQuote(s);
    ScanInsideString(open, value);
    EscapeIsOddTail(value);
    ScanQuote(Pushed(open, value));
    PushedConcat(s, "\"", value);
    PushedConcat(s, "\"" + value, "\"");
  }

  /** Scanning a printed expression takes it whole and restores the depth, whatever commas
      and brackets it holds. */
  lemma {:induction false} ScanRendered(s: Scan, e: TypeExpr)
    requires !s.inString && !s.prevEscape && WellFormed(e)
    ensures ScanAll(s, Render(e)) == Pushed(s, Render(e))
    decreases e, 0
  {
    hide ScanAll, Step;
    match e {
      case StringLiteral(value) => ScanLiteral(s, value);
      case Named(name, args) =>
        NameIsInert(name, s.depth);
        ScanPlain(s, name);
        if args != [] {
          var inner := RenderArgs(args);
          var s1 := Pushed(s, name + "<").(depth := s.depth + 1);
          ScanThree(s, name + "<", inner, ">");
          ScanAllConcat(s, name, "<");
          ScanOpen(Pushed(s, name));
          PushedConcat(s, name, "<");
          ScanRenderedArgs(s1, args);
          ScanClose(Pushed(s1, inner));
          PushedConcat(s1, inner, ">");
          PushedConcat(s, name + "<", inner + ">");
          assert name + "<" + (inner + ">") == Render(e) == name + "<" + inner + ">";
        }
    }
  }

  lemma NameIsInert(name: string, depth: nat)
    requires IsTypeName(name)
    ensures forall c :: c in name ==> Inert(c, depth)
  {}

  lemma {:induction false} ScanRenderedArgs(s: Scan, args: seq<TypeExpr>)
    requires !s.inString && !s.prevEscape && s.depth > 0 && forall a :: a in args ==> WellFormed(a)
    ensures ScanAll(s, RenderArgs(args)) == Pushed(s, RenderArgs(args))
    decreases args, 1
  {
    hide ScanAll, Step, Render;
    if args == [] {
      ScanPlain(s, "");
    } else {
      ScanRendered(s, args[0]);
      if |args| > 1 {
        var first, rest := Render(args[0]), RenderArgs(args[1..]);
        ScanThree(s, first, ", ", rest);
        ScanPlain(Pushed(s, first), ", ");
        PushedConcat(s, first, ", ");
        ScanRenderedArgs(Pushed(s, first + ", "), args[1..]);
        PushedConcat(s, first + ", ", rest);
      }
    }
  }

  // ---------- splitting printed arguments ----------

  function Rendered(args: seq<TypeExpr>): seq<string> {
    seq(|args|, i requires 0 <= i < |args| => Render(args[i]))
  }

  lemma RenderedIsTrimmed(e: TypeExpr)
    requires WellFormed(e)
    ensures IsTrimmed(Render(e)) && Render(e) != ""
  {
    assert !IsWhitespace('"') && !IsWhitespace('>');
  }

  lemma PaddedRenderTrims(pad: string, e: TypeExpr)
    requires WellFormed(e) && AllWhitespace(pad)
    ensures Trim(pad + Render(e)) == Render(e)
  {
    hide Trim;
    RenderedIsTrimmed(e);
    TrimPadded(pad, Render(e), "");
    assert pad + Render(e) + "" == pad + Render(e);
  }

  /** At depth 0 the scan cuts exactly between the arguments. */
  lemma {:induction false} SplitRendered(done: seq<string>, pad: string, args: seq<TypeExpr>)
    requires AllWhitespace(pad) && args != [] && forall a :: a in args ==> WellFormed(a)
    ensures ScanAll(Scan(done, pad, 0, false, false), RenderArgs(args)).Cut().args == done + Rendered(args)
    decreases |args|
  {
    hide Trim, Render, ScanAll, Step, WellFormed;
    var s := Scan(done, pad, 0, false, false);
    var first := Render(args[0]);
    ScanRendered(s, args[0]);
    PaddedRenderTrims(pad, args[0]);
    RenderedIsTrimmed(args[0]);
    if |args| == 1 {
      assert Rendered(args) == [first];
    } else {
      var rest := RenderArgs(args[1..]);
      ScanThree(s, first, ",", " " + rest);
      assert first + "," + (" " + rest) == first + ", " + rest;
      ScanComma(Pushed(s, first));
      var s1 := Scan(done + [first], "", 0, false, false);
      ScanAllConcat(s1, " ", rest);
      ScanPlain(s1, " ");
      assert "" + " " == " ";
      SplitRendered(done + [first], " ", args[1..]);
      assert done + Rendered(args) == done + [first] + Rendered(args[1..]);
    }
  }

  /** `parse_type_expr(render(e)) == e`. */
  lemma {:induction false} ParseRendered(e: TypeExpr)
    requires WellFormed(e)
    ensures Parse(Render(e)) == e
    decreases e
  {
    hide Trim, ScanAll, Find, IsWhitespace;
    RenderedIsTrimmed(e);
    TrimIdempotent(Render(e));
    match e {
      case StringLiteral(value) =>
        assert Unquoted(Render(e)) == Some(value);
      case Named(name, args) =>
        assert name[0] in name;
        if args != [] {
          var inner := RenderArgs(args);
          SplitOnceAt(name, '<', inner + ">");
          assert Render(e) == name + ['<'] + (inner + ">");
          assert StripClosing(inner + ">") == inner;
          TrimIdempotent(name);
          SplitRendered([], "", args);
          assert [] + Rendered(args) == Rendered(args);
          forall i | 0 <= i < |args| ensures Parse(Rendered(args)[i]) == args[i] {
            ParseRendered(args[i]);
          }
        }
    }
  }
}
