/**
 The string operations the hand-written readers and printers are built from, as
 Rust's standard library defines them on Unicode scalar values.
 */
module Text {
  import opened Wrappers

  // ---------- characters ----------

  predicate IsWhitespace(c: char) {
    || '\t' <= c <= '\r' || c == ' ' || c == '\U{0085}' || c == '\U{00A0}' || c == '\U{1680}'
    || '\U{2000}' <= c <= '\U{200A}' || c == '\U{2028}' || c == '\U{2029}' || c == '\U{202F}'
    || c == '\U{205F}' || c == '\U{3000}'
  }

  predicate IsDigit(c: char) { '0' <= c <= '9' }
  predicate IsLower(c: char) { 'a' <= c <= 'z' }
  predicate IsUpper(c: char) { 'A' <= c <= 'Z' }
  predicate IsAlphanumeric(c: char) { IsDigit(c) || IsLower(c) || IsUpper(c) }

  predicate AllWhitespace(s: string) { forall c :: c in s ==> IsWhitespace(c) }

  // ---------- trimming ----------

  function TrimStart(s: string): (r: string)
    ensures |r| <= |s|
  {
    if |s| > 0 && IsWhitespace(s[0]) then TrimStart(s[1..]) else s
  }

  function TrimEnd(s: string): (r: string)
    ensures |r| <= |s|
  {
    if |s| > 0 && IsWhitespace(s[|s| - 1]) then TrimEnd(s[..|s| - 1]) else s
  }

  function Trim(s: string): (r: string)
    ensures |r| <= |s|
  {
    TrimEnd(TrimStart(s))
  }

  /** Nothing to trim on either side. */
  predicate IsTrimmed(s: string) {
    |s| > 0 ==> !IsWhitespace(s[0]) && !IsWhitespace(s[|s| - 1])
  }

  lemma {:induction false} TrimStartPadded(pad: string, s: string)
    requires AllWhitespace(pad)
    ensures TrimStart(pad + s) == TrimStart(s)
  {
    if pad == "" {
      assert pad + s == s;
    } else {
      assert (pad + s)[1..] == pad[1..] + s;
      TrimStartPadded(pad[1..], s);
    }
  }

  lemma {:induction false} TrimEndPadded(s: string, pad: string)
    requires AllWhitespace(pad)
    ensures TrimEnd(s + pad) == TrimEnd(s)
  {
    if pad == "" {
      assert s + pad == s;
    } else {
      assert (s + pad)[..|s + pad| - 1] == s + pad[..|pad| - 1];
      TrimEndPadded(s, pad[..|pad| - 1]);
    }
  }

  /** Trimming removes exactly the white space around a trimmed core. */
  lemma TrimPadded(left: string, core: string, right: string)
    requires AllWhitespace(left) && AllWhitespace(right) && IsTrimmed(core)
    ensures Trim(left + core + right) == core
  {
    assert left + core + right == left + (core + right);
    TrimStartPadded(left, core + right);
    if core == "" {
      assert core + right == right + "";
      TrimStartPadded(right, "");
    } else {
      TrimEndPadded(core, right);
    }
  }

  lemma {:induction false} TrimStartSplits(s: string) returns (pad: string)
    ensures s == pad + TrimStart(s) && AllWhitespace(pad)
    ensures TrimStart(s) != "" ==> !IsWhitespace(TrimStart(s)[0])
  {
    if |s| > 0 && IsWhitespace(s[0]) {
      var rest := TrimStartSplits(s[1..]);
      pad := [s[0]] + rest;
    } else {
      pad := "";
    }
  }

  lemma {:induction false} TrimEndSplits(s: string) returns (pad: string)
    ensures s == TrimEnd(s) + pad && AllWhitespace(pad)
    ensures TrimEnd(s) != "" ==> !IsWhitespace(TrimEnd(s)[|TrimEnd(s)| - 1])
  {
    if |s| > 0 && IsWhitespace(s[|s| - 1]) {
      var rest := TrimEndSplits(s[..|s| - 1]);
      pad := rest + [s[|s| - 1]];
    } else {
      pad := "";
    }
  }

  /** Every string is its trimmed form between two runs of white space. */
  lemma TrimSplits(s: string) returns (left: string, right: string)
    ensures s == left + Trim(s) + right
    ensures AllWhitespace(left) && AllWhitespace(right) && IsTrimmed(Trim(s))
  {
    left := TrimStartSplits(s);
    right := TrimEndSplits(TrimStart(s));
    if Trim(s) != "" {
      assert Trim(s)[0] == TrimStart(s)[0];
    }
  }

  lemma TrimIdempotent(s: string)
    requires IsTrimmed(s)
    ensures Trim(s) == s
  {
    TrimPadded("", s, "");
    assert "" + s + "" == s;
  }

  /** `trim_matches` with one character: every leading and trailing occurrence goes. */
  function TrimMatches(s: string, c: char): (r: string)
    ensures |r| <= |s|
    ensures |r| > 0 ==> r[0] != c && r[|r| - 1] != c
    decreases |s|
  {
    if |s| > 0 && s[0] == c then TrimMatches(s[1..], c)
    else if |s| > 0 && s[|s| - 1] == c then TrimMatches(s[..|s| - 1], c)
    else s
  }

  function TrimStartMatches(s: string, c: char): string {
    if StartsWith(s, c) then TrimStartMatches(s[1..], c) else s
  }

  function TrimEndMatches(s: string, c: char): (r: string)
    ensures r <= s
  {
    if EndsWith(s, c) then TrimEndMatches(s[..|s| - 1], c) else s
  }

  /** White space after a text does not change what is left of it. */
  lemma TrimIgnoresTail(s: string, pad: string)
    requires AllWhitespace(pad)
    ensures Trim(s + pad) == Trim(s)
  {
    hide Trim, IsWhitespace;
    var left, right := TrimSplits(s);
    assert s + pad == left + Trim(s) + (right + pad);
    TrimPadded(left, Trim(s), right + pad);
  }

  lemma TrimTwice(s: string)
    ensures Trim(Trim(s)) == Trim(s)
  {
    hide Trim, IsWhitespace;
    var left, right := TrimSplits(s);
    TrimIdempotent(Trim(s));
  }

  // ---------- searching and splitting ----------

  /** The position of the first `c`, or the length if there is none. */
  function Find(s: string, c: char): (i: nat)
    ensures i <= |s| && (i < |s| ==> s[i] == c)
    ensures forall k :: 0 <= k < i ==> s[k] != c
  {
    if |s| == 0 || s[0] == c then 0 else 1 + Find(s[1..], c)
  }

  lemma FindAt(before: string, c: char, rest: string)
    requires c !in before
    ensures Find(before + [c] + rest, c) == |before|
  {
    var s := before + [c] + rest;
    assert s[|before|] == c;
    forall k | 0 <= k < |before| ensures s[k] != c {
      assert s[k] in before;
    }
  }

  lemma FindAbsent(s: string, c: char)
    requires c !in s
    ensures Find(s, c) == |s|
  {}

  /** `split(c).next()`: the part before the first `c`, or everything. */
  function Before(s: string, c: char): (r: string)
    ensures c !in r
    ensures c !in s ==> r == s
  {
    s[..Find(s, c)]
  }

  lemma BeforeAt(left: string, c: char, right: string)
    requires c !in left
    ensures Before(left + [c] + right, c) == left
  {
    FindAt(left, c, right);
    assert (left + [c] + right)[..|left|] == left;
  }

  /** `split_once(c)`. */
  function SplitOnce(s: string, c: char): (r: Option<(string, string)>)
    ensures r.None? <==> c !in s
    ensures r.Some? ==> s == r.value.0 + [c] + r.value.1 && c !in r.value.0
  {
    var i := Find(s, c);
    if i < |s| then Some((s[..i], s[i + 1..])) else None
  }

  lemma SplitOnceAt(left: string, c: char, right: string)
    requires c !in left
    ensures SplitOnce(left + [c] + right, c) == Some((left, right))
  {
    FindAt(left, c, right);
    var s := left + [c] + right;
    assert s[..|left|] == left && s[|left| + 1..] == right;
  }

  predicate EndsWith(s: string, c: char) { |s| > 0 && s[|s| - 1] == c }
  predicate StartsWith(s: string, c: char) { |s| > 0 && s[0] == c }

  // ---------- numbers ----------

  function DigitValue(c: char): (d: nat)
    requires IsDigit(c)
    ensures d < 10
  {
    c as int - '0' as int
  }

  function DecimalValue(s: string): (n: nat)
    requires forall c :: c in s ==> IsDigit(c)
  {
    if s == "" then 0 else 10 * DecimalValue(s[..|s| - 1]) + DigitValue(s[|s| - 1])
  }

  /** `str::parse` for an unsigned type: an optional plus sign, digits, no overflow. */
  function ParseUnsigned(s: string, max: nat): (n: Option<nat>)
    ensures n.Some? ==> n.value <= max
  {
    var digits := if StartsWith(s, '+') then s[1..] else s;
    if digits != "" && (forall c :: c in digits ==> IsDigit(c)) && DecimalValue(digits) <= max
    then Some(DecimalValue(digits))
    else None
  }

  const U32_MAX: nat := 0xFFFF_FFFF
  const U64_MAX: nat := 0xFFFF_FFFF_FFFF_FFFF

  /** Decimal digits of a number, without leading zeros. */
  function Decimal(n: nat): (s: string)
    ensures s != "" && (forall c :: c in s ==> IsDigit(c))
    ensures DecimalValue(s) == n
    ensures n > 0 ==> s[0] != '0'
  {
    if n < 10 then
      var s := ["0123456789"[n]];
      assert s[..0] == "";
      s
    else
      var s := Decimal(n / 10) + ["0123456789"[n % 10]];
      assert s[..|s| - 1] == Decimal(n / 10);
      s
  }

  // ---------- lines ----------

  function StripCr(line: string): string {
    if EndsWith(line, '\r') then line[..|line| - 1] else line
  }

  /** `str::lines`: a line ends at `\n` or `\r\n`; a last line without `\n` is kept as it is. */
  function Lines(s: string): (lines: seq<string>)
    ensures forall line :: line in lines ==> '\n' !in line
    decreases |s|
  {
    if s == "" then []
    else
      var i := Find(s, '\n');
      if i == |s| then [s] else [StripCr(s[..i])] + Lines(s[i + 1..])
  }

  lemma LinesCons(line: string, rest: string)
    requires '\n' !in line
    ensures Lines(line + "\n" + rest) == [StripCr(line)] + Lines(rest)
  {
    FindAt(line, '\n', rest);
    var s := line + "\n" + rest;
    assert s[..|line|] == line && s[|line| + 1..] == rest;
  }

  /** Each line followed by `\n`. */
  function Unlines(lines: seq<string>): string {
    if |lines| == 0 then "" else lines[0] + "\n" + Unlines(lines[1..])
  }

  lemma {:induction false} UnlinesConcat(a: seq<string>, b: seq<string>)
    ensures Unlines(a + b) == Unlines(a) + Unlines(b)
  {
    if a == [] {
      assert a + b == b;
    } else {
      assert (a + b)[1..] == a[1..] + b;
      UnlinesConcat(a[1..], b);
    }
  }

  /** `join("\n")`. */
  function Join(lines: seq<string>): string {
    if |lines| == 0 then "" else if |lines| == 1 then lines[0] else lines[0] + "\n" + Join(lines[1..])
  }

  lemma {:induction false} JoinIsUnlines(lines: seq<string>)
    requires lines != []
    ensures Join(lines) + "\n" == Unlines(lines)
  {
    if |lines| == 1 {
      assert lines[1..] == [];
    } else {
      JoinIsUnlines(lines[1..]);
    }
  }

  function EnsureTrailingNewline(s: string): string {
    if EndsWith(s, '\n') then s else s + "\n"
  }

  lemma OneLineText(s: string)
    requires s != "" && '\n' !in s
    ensures Lines(s) == [s] && Lines("") == []
  {
    FindAbsent(s, '\n');
  }

  /** A missing line end at the end of a text changes its last line by a `\r` at most. */
  lemma {:induction false} TrailingNewlineLines(s: string)
    requires s != "" && !EndsWith(s, '\n')
    ensures var lines := Lines(s);
            lines != [] && Lines(s + "\n") == lines[..|lines| - 1] + [StripCr(lines[|lines| - 1])]
    decreases |s|
  {
    hide Find, Lines, StripCr;
    match SplitOnce(s, '\n')
    case None =>
      OneLineText(s);
      LinesCons(s, "");
      assert s + "\n" + "" == s + "\n" && [s][..0] == [];
    case Some((line, rest)) =>
      assert s == line + "\n" + rest && rest != "" && rest[|rest| - 1] == s[|s| - 1];
      TrailingNewlineLines(rest);
      LinesCons(line, rest);
      LinesCons(line, rest + "\n");
      assert s + "\n" == line + "\n" + (rest + "\n");
      StripLast(StripCr(line), Lines(rest));
  }

  lemma StripLast(first: string, rest: seq<string>)
    requires rest != []
    ensures var lines := [first] + rest;
            lines[..|lines| - 1] + [StripCr(lines[|lines| - 1])] ==
            [first] + (rest[..|rest| - 1] + [StripCr(rest[|rest| - 1])])
  {
    hide StripCr;
  }
}
