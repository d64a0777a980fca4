/**
 Respelling `rate_limit` in workflow and service headers (`migration.rs`), over the
 tokens of a file. Lexing is not part of this model.
 */
module RateLimits {
  import opened Wrappers

  datatype Kind = Workflow | Service | LParen | RParen | LBrace | Eof | Ident(text: string) | Other

  datatype Token = Token(kind: Kind, start: nat, end: nat)

  /** Spans in order within the text, and identifiers spelled as the text has them. */
  ghost predicate IsLexed(tokens: seq<Token>, source: string) {
    && (forall i :: 0 <= i < |tokens| ==> tokens[i].start <= tokens[i].end <= |source|)
    && (forall i, j :: 0 <= i < j < |tokens| ==> tokens[i].end <= tokens[j].start)
    && (forall i :: 0 <= i < |tokens| && tokens[i].kind.Ident? ==>
        source[tokens[i].start..tokens[i].end] == tokens[i].kind.text)
  }

  const LEGACY := "rate_limit"
  const CURRENT := "rate limit"

  predicate IsLegacy(t: Token) { t.kind == Ident(LEGACY) }

  // ---------- where a header's metadata begins ----------

  /** Opening minus closing parentheses among the tokens from `a` up to `b`. */
  function Depth(tokens: seq<Token>, a: nat, b: nat): int
    requires b <= |tokens|
  {
    if b <= a then 0
    else Depth(tokens, a, b - 1) + match tokens[b - 1].kind { case LParen => 1 case RParen => -1 case _ => 0 }
  }

  /** The first parenthesis of a workflow header. */
  predicate Opens(tokens: seq<Token>, i: nat, open: nat) {
    && i <= open < |tokens| && tokens[open].kind.LParen?
    && forall x :: i <= x < open ==> !tokens[x].kind.LParen? && !tokens[x].kind.LBrace? && !tokens[x].kind.Eof?
  }

  /** ... and the position after the one that closes it. */
  predicate ClosesFrom(tokens: seq<Token>, open: nat, r: nat) {
    && open < r <= |tokens| && Depth(tokens, open, r) == 0
    && (forall x :: open < x < r ==> Depth(tokens, open, x) > 0)
    && (forall x :: open <= x < r ==> !tokens[x].kind.Eof?)
  }

  ghost predicate IsMetadataStart(tokens: seq<Token>, i: nat, r: nat) {
    exists open :: Opens(tokens, i, open) && ClosesFrom(tokens, open, r)
  }

  lemma MetadataStartIsUnique(tokens: seq<Token>, i: nat, r: nat, s: nat)
    requires IsMetadataStart(tokens, i, r) && IsMetadataStart(tokens, i, s)
    ensures r == s
  {
    var a :| Opens(tokens, i, a) && ClosesFrom(tokens, a, r);
    var b :| Opens(tokens, i, b) && ClosesFrom(tokens, b, s);
    assert a == b;
  }

  /** `workflow_metadata_start`: the header's parameter list is balanced, and the metadata
      begins right behind it. */
  method WorkflowMetadataStart(tokens: seq<Token>, i: nat) returns (r: Option<nat>)
    ensures r.Some? ==> IsMetadataStart(tokens, i, r.value)
    ensures r.None? ==> forall x :: !IsMetadataStart(tokens, i, x)
  {
    var open := i;
    while open < |tokens| && !tokens[open].kind.LParen?
      invariant i <= open
      invariant forall x :: i <= x < open && x < |tokens| ==>
                  !tokens[x].kind.LParen? && !tokens[x].kind.LBrace? && !tokens[x].kind.Eof?
    {
      if tokens[open].kind.LBrace? || tokens[open].kind.Eof? {
        return None;
      }
      open := open + 1;
    }
    if open >= |tokens| {
      return None;
    }
    var index := open;
    var depth := 0;
    while index < |tokens|
      invariant open <= index <= |tokens| && depth == Depth(tokens, open, index)
      invariant forall x :: open < x <= index ==> Depth(tokens, open, x) > 0
      invariant forall x :: open <= x < index ==> !tokens[x].kind.Eof?
    {
      if tokens[index].kind.LParen? {
        depth := depth + 1;
      } else if tokens[index].kind.RParen? {
        depth := depth - 1;
        if depth == 0 {
          assert Depth(tokens, open, index + 1) == 0;
          assert Opens(tokens, i, open) && ClosesFrom(tokens, open, index + 1);
          return Some(index + 1);
        }
      } else if tokens[index].kind.Eof? {
        NotClosed(tokens, i, open, index);
        return None;
      }
      index := index + 1;
    }
    NotClosed(tokens, i, open, index);
    r := None;
  }

  /** At the end of the file with parentheses open, no position closes the list. */
  lemma NotClosed(tokens: seq<Token>, i: nat, open: nat, at: nat)
    requires Opens(tokens, i, open) && open <= at <= |tokens| && (at < |tokens| ==> tokens[at].kind.Eof?)
    requires forall x :: open < x <= at ==> Depth(tokens, open, x) > 0
    ensures forall x :: !IsMetadataStart(tokens, i, x)
  {
    hide Depth;
    forall x ensures !IsMetadataStart(tokens, i, x) {
      if IsMetadataStart(tokens, i, x) {
        NotClosedAt(tokens, i, open, at, x);
      }
    }
  }

  lemma NotClosedAt(tokens: seq<Token>, i: nat, open: nat, at: nat, x: nat)
    requires Opens(tokens, i, open) && open <= at <= |tokens| && (at < |tokens| ==> tokens[at].kind.Eof?)
    requires forall y :: open < y <= at ==> Depth(tokens, open, y) > 0
    ensures !IsMetadataStart(tokens, i, x)
  {
    hide Depth;
    forall o | Opens(tokens, i, o) ensures o == open {}
  }

  // ---------- what a header flags ----------

  predicate EndsHeader(t: Token) { t.kind.LBrace? || t.kind.Eof? }

  /** The first brace or end of file from `i` on. */
  function HeaderEnd(tokens: seq<Token>, i: nat): (e: nat)
    ensures e >= i
    decreases |tokens| - i
  {
    if i >= |tokens| || EndsHeader(tokens[i]) then i else HeaderEnd(tokens, i + 1)
  }

  /** The legacy names in a header, by token position. */
  function HeaderFlags(tokens: seq<Token>, i: nat): (flags: seq<nat>)
    ensures forall k :: 0 <= k < |flags| ==>
              i <= flags[k] < HeaderEnd(tokens, i) && flags[k] < |tokens| && IsLegacy(tokens[flags[k]])
    ensures IsIncreasing(flags)
    decreases |tokens| - i
  {
    if i >= |tokens| || EndsHeader(tokens[i]) then []
    else
      var rest := HeaderFlags(tokens, i + 1);
      if IsLegacy(tokens[i]) then [i] + rest else rest
  }

  predicate IsIncreasing(flags: seq<nat>) { forall a, b :: 0 <= a < b < |flags| ==> flags[a] < flags[b] }

  ghost function MetadataStart(tokens: seq<Token>, i: nat): (r: Option<nat>)
    ensures r.Some? ==> IsMetadataStart(tokens, i, r.value)
    ensures r.None? ==> forall x :: !IsMetadataStart(tokens, i, x)
  {
    if exists x: nat :: IsMetadataStart(tokens, i, x) then
      var x: nat :| IsMetadataStart(tokens, i, x);
      Some(x)
    else None
  }

  /** Where the scan for a header keyword at `i` starts. */
  ghost function ScanStart(tokens: seq<Token>, i: nat): Option<nat>
    requires i < |tokens|
  {
    if tokens[i].kind.Service? then Some(i + 2)
    else if tokens[i].kind.Workflow? then MetadataStart(tokens, i + 1)
    else None
  }

  /** Everything flagged for header keywords before position `n`, header by header. */
  ghost function Flags(tokens: seq<Token>, n: nat): (flags: seq<nat>)
    requires n <= |tokens|
    ensures forall k :: 0 <= k < |flags| ==> flags[k] < |tokens| && IsLegacy(tokens[flags[k]])
  {
    if n == 0 then []
    else
      var start := ScanStart(tokens, n - 1);
      Flags(tokens, n - 1) + if start.None? then [] else HeaderFlags(tokens, start.value)
  }

  method ScanHeader(tokens: seq<Token>, from: nat) returns (flags: seq<nat>)
    ensures flags == HeaderFlags(tokens, from)
  {
    flags := [];
    var index := from;
    while index < |tokens| && !EndsHeader(tokens[index])
      invariant from <= index
      invariant HeaderFlags(tokens, from) == flags + HeaderFlags(tokens, index)
      decreases |tokens| - index
    {
      if IsLegacy(tokens[index]) {
        flags := flags + [index];
      }
      index := index + 1;
    }
  }

  /** `legacy_rate_limit_replacements`, by token position. */
  method LegacyReplacements(tokens: seq<Token>) returns (flags: seq<nat>)
    ensures flags == Flags(tokens, |tokens|)
  {
    hide IsMetadataStart, HeaderFlags;
    flags := [];
    for index := 0 to |tokens|
      invariant flags == Flags(tokens, index)
    {
      if tokens[index].kind.Workflow? {
        var start := WorkflowMetadataStart(tokens, index + 1);
        if start.Some? {
          MetadataStartIsUnique(tokens, index + 1, start.value, MetadataStart(tokens, index + 1).value);
          var more := ScanHeader(tokens, start.value);
          flags := flags + more;
        }
      } else if tokens[index].kind.Service? {
        var more := ScanHeader(tokens, index + 2);
        flags := flags + more;
      }
    }
  }

  // ---------- what headers name ----------

  /** The header of the keyword at `i` holds the legacy name at `k`. */
  ghost predicate Names(tokens: seq<Token>, i: int, k: int) {
    && 0 <= i < |tokens| && 0 <= k < |tokens| && IsLegacy(tokens[k]) && ScanStart(tokens, i).Some?
    && ScanStart(tokens, i).value <= k < HeaderEnd(tokens, ScanStart(tokens, i).value)
  }

  /** Of two headers, the first holds a legacy name at or behind one of the second. */
  ghost predicate Clash(tokens: seq<Token>, i: int, j: int) {
    exists a, b :: Names(tokens, i, a) && Names(tokens, j, b) && b <= a
  }

  ghost predicate ClashBefore(tokens: seq<Token>, n: nat) {
    exists j :: 0 <= j < n && ClashesWithEarlier(tokens, j)
  }

  ghost predicate ClashesWithEarlier(tokens: seq<Token>, j: int) {
    exists i :: 0 <= i < j && Clash(tokens, i, j)
  }

  /** Some header holds a legacy name at or behind one that a later header holds. */
  ghost predicate HeadersClash(tokens: seq<Token>) { ClashBefore(tokens, |tokens|) }

  ghost predicate NamedBefore(tokens: seq<Token>, n: int, k: int) {
    exists i :: 0 <= i < n && Names(tokens, i, k)
  }

  lemma {:induction false} HeaderFlagsMembers(tokens: seq<Token>, i: nat, k: nat)
    ensures k in HeaderFlags(tokens, i) <==> i <= k < HeaderEnd(tokens, i) && k < |tokens| && IsLegacy(tokens[k])
    decreases |tokens| - i
  {
    hide IsLegacy;
    if i < |tokens| && !EndsHeader(tokens[i]) {
      HeaderFlagsMembers(tokens, i + 1, k);
    }
  }

  ghost function FlagsOf(tokens: seq<Token>, i: nat): seq<nat>
    requires i < |tokens|
  {
    if ScanStart(tokens, i).None? then [] else HeaderFlags(tokens, ScanStart(tokens, i).value)
  }

  lemma NamesAreFlags(tokens: seq<Token>, i: nat, k: nat)
    requires i < |tokens|
    ensures k in FlagsOf(tokens, i) <==> Names(tokens, i, k)
  {
    hide ScanStart;
    if ScanStart(tokens, i).Some? {
      HeaderFlagsMembers(tokens, ScanStart(tokens, i).value, k);
    }
  }

  lemma {:induction false} FlagsMembers(tokens: seq<Token>, n: nat, k: nat)
    requires n <= |tokens|
    ensures k in Flags(tokens, n) <==> NamedBefore(tokens, n, k)
  {
    hide *;
    NamedBeforeMore(tokens, n, k);
    if n == 0 {
      NoFlags(tokens);
    } else {
      FlagsMembers(tokens, n - 1, k);
      NamesAreFlags(tokens, n - 1, k);
      FlagsAppend(tokens, n);
    }
  }

  lemma NoFlags(tokens: seq<Token>)
    ensures Flags(tokens, 0) == [] && !ClashBefore(tokens, 0) && IsIncreasing([])
  {}

  lemma ClashBeforeMore(tokens: seq<Token>, n: nat)
    ensures ClashBefore(tokens, n) <==> n > 0 && (ClashBefore(tokens, n - 1) || ClashesWithEarlier(tokens, n - 1))
  {
    hide ClashesWithEarlier;
  }

  lemma FlagsAppend(tokens: seq<Token>, n: nat)
    requires 0 < n <= |tokens|
    ensures Flags(tokens, n) == Flags(tokens, n - 1) + FlagsOf(tokens, n - 1)
  {
    hide ScanStart, HeaderFlags;
  }

  lemma NamedBeforeMore(tokens: seq<Token>, n: nat, k: nat)
    ensures NamedBefore(tokens, n, k) <==> n > 0 && (NamedBefore(tokens, n - 1, k) || Names(tokens, n - 1, k))
  {
    hide Names;
  }

  lemma JoinIncreasing(a: seq<nat>, b: seq<nat>)
    ensures IsIncreasing(a + b) <==> IsIncreasing(a) && IsIncreasing(b) && forall x, y :: x in a && y in b ==> x < y
  {
    var s := a + b;
    if IsIncreasing(a) && IsIncreasing(b) && forall x, y :: x in a && y in b ==> x < y {
      forall i, j | 0 <= i < j < |s| ensures s[i] < s[j] {
        if i < |a| {
          assert s[i] in a;
          if j >= |a| { assert s[j] in b; }
        }
      }
    }
    if IsIncreasing(s) {
      forall i, j | 0 <= i < j < |a| ensures a[i] < a[j] { assert s[i] < s[j]; }
      forall i, j | 0 <= i < j < |b| ensures b[i] < b[j] { assert s[|a| + i] < s[|a| + j]; }
      forall x, y | x in a && y in b ensures x < y {
        var i :| 0 <= i < |a| && a[i] == x;
        var j :| 0 <= j < |b| && b[j] == y;
        assert s[i] < s[|a| + j];
      }
    }
  }

  /** The flagged positions increase exactly if no two headers clash. */
  lemma {:induction false} IncreasingWithoutClash(tokens: seq<Token>, n: nat)
    requires n <= |tokens|
    ensures IsIncreasing(Flags(tokens, n)) <==> !ClashBefore(tokens, n)
  {
    hide *;
    if n == 0 {
      NoFlags(tokens);
    } else {
      ClashBeforeMore(tokens, n);
      IncreasingWithoutClash(tokens, n - 1);
      FlagsAppend(tokens, n);
      JoinIncreasing(Flags(tokens, n - 1), FlagsOf(tokens, n - 1));
      OneHeaderIncreases(tokens, n - 1);
      LastHeader(tokens, n - 1, Flags(tokens, n - 1), FlagsOf(tokens, n - 1));
    }
  }

  lemma OneHeaderIncreases(tokens: seq<Token>, i: nat)
    requires i < |tokens|
    ensures IsIncreasing(FlagsOf(tokens, i))
  {
    hide ScanStart, IsIncreasing;
    NothingRespelled("", tokens);
  }

  lemma LastHeader(tokens: seq<Token>, j: nat, before: seq<nat>, last: seq<nat>)
    requires j < |tokens| && before == Flags(tokens, j) && last == FlagsOf(tokens, j)
    ensures (forall x, y :: x in before && y in last ==> x < y) <==> !ClashesWithEarlier(tokens, j)
  {
    hide Names, Flags, FlagsOf;
    forall x: nat ensures x in before <==> NamedBefore(tokens, j, x) { FlagsMembers(tokens, j, x); }
    forall y: nat ensures y in last <==> Names(tokens, j, y) { NamesAreFlags(tokens, j, y); }
    if ClashesWithEarlier(tokens, j) {
      var i :| 0 <= i < j && Clash(tokens, i, j);
      var a, b :| Names(tokens, i, a) && Names(tokens, j, b) && b <= a;
      NamesArePositions(tokens, i, a);
      NamesArePositions(tokens, j, b);
      assert NamedBefore(tokens, j, a);
    } else {
      forall x, y | x in before && y in last ensures x < y {
        var i :| 0 <= i < j && Names(tokens, i, x);
        assert !Clash(tokens, i, j);
      }
    }
  }

  lemma NamesArePositions(tokens: seq<Token>, i: int, k: int)
    requires Names(tokens, i, k)
    ensures 0 <= i < |tokens| && 0 <= k < |tokens|
  {}

  // ---------- the respelled text ----------

  /** Character by character: the underscore of each legacy name in a header becomes a
      blank, and nothing else changes. */
  ghost predicate IsRespelled(out: string, source: string, tokens: seq<Token>) {
    && |out| == |source|
    && forall j :: 0 <= j < |source| ==>
         out[j] == if IsNamedUnderscore(tokens, j) then ' ' else source[j]
  }

  ghost predicate IsNamedUnderscore(tokens: seq<Token>, j: int) {
    exists i, k :: Names(tokens, i, k) && j == tokens[k].start + 4
  }

  /** The same, for the names flagged so far. */
  ghost predicate IsRespelledFor(out: string, source: string, tokens: seq<Token>, flags: seq<nat>) {
    && |out| == |source|
    && forall j :: 0 <= j < |source| ==> out[j] == if IsUnderscore(tokens, flags, j) then ' ' else source[j]
  }

  ghost predicate IsUnderscore(tokens: seq<Token>, flags: seq<nat>, j: int) {
    exists k :: 0 <= k < |flags| && flags[k] < |tokens| && j == tokens[flags[k]].start + 4
  }

  lemma FlaggedIsNamed(tokens: seq<Token>, j: int)
    ensures IsUnderscore(tokens, Flags(tokens, |tokens|), j) <==> IsNamedUnderscore(tokens, j)
  {
    hide Flags, Names;
    var flags := Flags(tokens, |tokens|);
    if IsUnderscore(tokens, flags, j) {
      var x :| 0 <= x < |flags| && flags[x] < |tokens| && j == tokens[flags[x]].start + 4;
      FlagsMembers(tokens, |tokens|, flags[x]);
      var i :| 0 <= i < |tokens| && Names(tokens, i, flags[x]);
      NamedUnderscore(tokens, i, flags[x], j);
    }
    if IsNamedUnderscore(tokens, j) {
      var k := UnderscoreOfName(tokens, j);
      FlagsMembers(tokens, |tokens|, k);
      var x :| 0 <= x < |flags| && flags[x] == k;
    }
  }

  lemma NamedUnderscore(tokens: seq<Token>, i: int, k: int, j: int)
    requires Names(tokens, i, k) && 0 <= k < |tokens| && j == tokens[k].start + 4
    ensures IsNamedUnderscore(tokens, j)
  {}

  lemma UnderscoreOfName(tokens: seq<Token>, j: int) returns (k: nat)
    requires IsNamedUnderscore(tokens, j)
    ensures k < |tokens| && j == tokens[k].start + 4 && NamedBefore(tokens, |tokens|, k)
  {
    hide IsLegacy, ScanStart;
    var i, name :| Names(tokens, i, name) && j == tokens[name].start + 4;
    k := name;
  }

  /** `replace_legacy_rate_limit_metadata`. Copying the text in front of a span that does not
      lie behind the last one is a failure of the program: `None`. */
  method ReplaceLegacy(source: string, tokens: seq<Token>) returns (out: Option<string>)
    requires IsLexed(tokens, source)
    ensures out.Some? <==> !HeadersClash(tokens)
    ensures out.Some? ==> IsRespelled(out.value, source, tokens) && SpellsNames(out.value, source, tokens)
  {
    hide SpellsNames, Flags, IsIncreasing, IsRespelled, IsRespelledFor, IsLexed, IsLegacy, ClashBefore;
    var flags := LegacyReplacements(tokens);
    IncreasingWithoutClash(tokens, |tokens|);
    var text := "";
    var cursor := 0;
    NothingRespelled(source, tokens);
    assert flags[..0] == [];
    for n := 0 to |flags|
      invariant IsIncreasing(flags[..n])
      invariant cursor == (if n == 0 then 0 else tokens[flags[n - 1]].end) <= |source|
      invariant IsRespelledFor(text, source[..cursor], tokens, flags[..n])
    {
      var start, end := tokens[flags[n]].start, tokens[flags[n]].end;
      LegacySpan(source, tokens, flags[n]);
      NextSpan(source, tokens, flags, n);
      if start < cursor {
        return None;
      }
      SpansBefore(source, tokens, flags, n);
      RespellNext(text, source, tokens, flags, n, cursor);
      text := text + source[cursor..start] + CURRENT;
      cursor := end;
    }
    assert flags[..|flags|] == flags;
    SpansBefore(source, tokens, flags, |flags|);
    RespellRest(text, source, tokens, flags, cursor);
    RespelledForAll(text + source[cursor..], source, tokens);
    RespelledNames(text + source[cursor..], source, tokens);
    out := Some(text + source[cursor..]);
  }

  /** Every legacy name in a header is spelled with a blank in place of its underscore. */
  ghost predicate SpellsNames(out: string, source: string, tokens: seq<Token>) {
    |out| == |source| && forall i, k :: Names(tokens, i, k) ==> IsSpelled(out, source, tokens[k])
  }

  predicate IsSpelled(out: string, source: string, t: Token) {
    && t.start <= t.end <= |out| == |source|
    && source[t.start..t.end] == "rate_limit" && out[t.start..t.end] == "rate limit"
  }

  lemma RespelledNames(out: string, source: string, tokens: seq<Token>)
    requires IsLexed(tokens, source) && IsRespelled(out, source, tokens)
    ensures SpellsNames(out, source, tokens)
  {
    hide ScanStart, HeaderEnd;
    forall i, k | Names(tokens, i, k) ensures IsSpelled(out, source, tokens[k]) {
      RespelledName(out, source, tokens, i, k);
    }
  }

  lemma RespelledName(out: string, source: string, tokens: seq<Token>, i: int, k: int)
    requires IsLexed(tokens, source) && IsRespelled(out, source, tokens) && Names(tokens, i, k)
    ensures IsSpelled(out, source, tokens[k])
  {
    hide ScanStart, HeaderEnd;
    var start := tokens[k].start;
    assert source[start..tokens[k].end] == "rate_limit";
    forall j | start <= j < tokens[k].end
      ensures out[j] == if j == start + 4 then ' ' else source[j]
    {
      if IsNamedUnderscore(tokens, j) {
        var x, y :| Names(tokens, x, y) && j == tokens[y].start + 4;
        LegacyLength(tokens, source, y);
        assert y == k;
      } else {
        assert j != start + 4;
      }
    }
    SpelledText(out[start..tokens[k].end], source[start..tokens[k].end]);
  }

  lemma LegacyLength(tokens: seq<Token>, source: string, k: nat)
    requires IsLexed(tokens, source) && k < |tokens| && IsLegacy(tokens[k])
    ensures tokens[k].end == tokens[k].start + 10
  {
    assert |source[tokens[k].start..tokens[k].end]| == 10;
  }

  lemma SpelledText(out: string, source: string)
    requires source == "rate_limit" && |out| == |source|
    requires forall j :: 0 <= j < |source| ==> out[j] == if j == 4 then ' ' else source[j]
    ensures out == "rate limit"
  {}

  lemma RespelledForAll(out: string, source: string, tokens: seq<Token>)
    requires IsRespelledFor(out, source, tokens, Flags(tokens, |tokens|))
    ensures IsRespelled(out, source, tokens)
  {
    hide Flags, IsUnderscore, IsNamedUnderscore;
    forall j | 0 <= j < |source|
      ensures IsUnderscore(tokens, Flags(tokens, |tokens|), j) <==> IsNamedUnderscore(tokens, j)
    {
      FlaggedIsNamed(tokens, j);
    }
  }

  lemma NothingRespelled(source: string, tokens: seq<Token>)
    ensures IsRespelledFor("", source[..0], tokens, []) && IsIncreasing([])
  {}

  ghost predicate AreLegacy(tokens: seq<Token>, flags: seq<nat>) {
    forall k :: 0 <= k < |flags| ==> flags[k] < |tokens| && IsLegacy(tokens[flags[k]])
  }

  lemma IncreasingPrefix(flags: seq<nat>, n: nat)
    requires n < |flags|
    ensures IsIncreasing(flags[..n + 1]) <==> IsIncreasing(flags[..n]) && (n == 0 || flags[n - 1] < flags[n])
    ensures IsIncreasing(flags) ==> IsIncreasing(flags[..n + 1])
  {
    var less, more := flags[..n], flags[..n + 1];
    assert forall k :: 0 <= k < n ==> more[k] == less[k] == flags[k];
    assert more[n] == flags[n];
    if IsIncreasing(more) {
      forall a, b | 0 <= a < b < n ensures less[a] < less[b] { assert more[a] < more[b]; }
      if n > 0 { assert more[n - 1] < more[n]; }
    }
    if IsIncreasing(less) && (n == 0 || flags[n - 1] < flags[n]) {
      forall a, b | 0 <= a < b <= n ensures more[a] < more[b] {
        if b < n { assert less[a] < less[b]; } else if a < n - 1 { assert less[a] < less[n - 1]; }
      }
    }
  }

  /** The next span lies behind the last one exactly if the positions keep increasing. */
  lemma NextSpan(source: string, tokens: seq<Token>, flags: seq<nat>, n: nat)
    requires IsLexed(tokens, source) && AreLegacy(tokens, flags) && n < |flags| && IsIncreasing(flags[..n])
    ensures var cursor := if n == 0 then 0 else tokens[flags[n - 1]].end;
            tokens[flags[n]].start >= cursor <==> IsIncreasing(flags[..n + 1])
    ensures IsIncreasing(flags) ==> IsIncreasing(flags[..n + 1])
  {
    hide IsIncreasing, IsLegacy;
    IncreasingPrefix(flags, n);
    if n > 0 {
      LegacySpan(source, tokens, flags[n - 1]);
      LegacySpan(source, tokens, flags[n]);
    }
  }

  /** Everything respelled so far lies before the end of the last span. */
  lemma SpansBefore(source: string, tokens: seq<Token>, flags: seq<nat>, n: nat)
    requires IsLexed(tokens, source) && AreLegacy(tokens, flags) && n <= |flags| && IsIncreasing(flags[..n])
    ensures forall k :: 0 <= k < n ==> flags[k] < |tokens| && tokens[flags[k]].start + 4 < tokens[flags[n - 1]].end
  {
    hide IsLegacy;
    forall k | 0 <= k < n ensures tokens[flags[k]].start + 4 < tokens[flags[n - 1]].end {
      LegacySpan(source, tokens, flags[k]);
      LegacySpan(source, tokens, flags[n - 1]);
      assert flags[..n][k] == flags[k] && flags[..n][n - 1] == flags[n - 1];
      assert k < n - 1 ==> flags[..n][k] < flags[..n][n - 1];
    }
  }

  lemma LegacySpan(source: string, tokens: seq<Token>, i: nat)
    requires IsLexed(tokens, source) && i < |tokens| && IsLegacy(tokens[i])
    ensures tokens[i].end == tokens[i].start + 10 <= |source| && source[tokens[i].start..tokens[i].end] == LEGACY
  {
    assert |source[tokens[i].start..tokens[i].end]| == 10;
  }

  lemma RespellNext(text: string, source: string, tokens: seq<Token>, flags: seq<nat>, n: nat, cursor: nat)
    requires IsLexed(tokens, source) && n < |flags| && flags[n] < |tokens| && IsLegacy(tokens[flags[n]])
    requires cursor <= tokens[flags[n]].start && IsRespelledFor(text, source[..cursor], tokens, flags[..n])
    requires forall k :: 0 <= k < n ==> flags[k] < |tokens| && tokens[flags[k]].start + 4 < cursor
    ensures IsRespelledFor(text + source[cursor..tokens[flags[n]].start] + CURRENT, source[..tokens[flags[n]].end],
                           tokens, flags[..n + 1])
  {
    var start, end := tokens[flags[n]].start, tokens[flags[n]].end;
    LegacySpan(source, tokens, flags[n]);
    var out := text + source[cursor..start] + CURRENT;
    forall j | 0 <= j < end
      ensures out[j] == if IsUnderscore(tokens, flags[..n + 1], j) then ' ' else source[..end][j]
    {
      UnderscoreMore(tokens, flags, n, j);
      if j < cursor {
      } else if j < start {
        assert out[j] == source[cursor..start][j - cursor];
      } else {
        assert out[j] == CURRENT[j - start] && source[start..end][j - start] == source[j];
      }
    }
  }

  lemma UnderscoreMore(tokens: seq<Token>, flags: seq<nat>, n: nat, j: int)
    requires n < |flags| && flags[n] < |tokens|
    ensures IsUnderscore(tokens, flags[..n + 1], j) <==>
            IsUnderscore(tokens, flags[..n], j) || j == tokens[flags[n]].start + 4
  {
    var more := flags[..n + 1];
    if IsUnderscore(tokens, flags[..n], j) {
      var k :| 0 <= k < n && flags[..n][k] < |tokens| && j == tokens[flags[..n][k]].start + 4;
      assert more[k] == flags[..n][k];
    }
    assert more[n] == flags[n];
    if IsUnderscore(tokens, more, j) {
      var k :| 0 <= k < n + 1 && more[k] < |tokens| && j == tokens[more[k]].start + 4;
      if k < n { assert flags[..n][k] == more[k]; }
    }
  }

  lemma RespellRest(text: string, source: string, tokens: seq<Token>, flags: seq<nat>, cursor: nat)
    requires cursor <= |source| && IsRespelledFor(text, source[..cursor], tokens, flags)
    requires forall k :: 0 <= k < |flags| ==> flags[k] < |tokens| && tokens[flags[k]].start + 4 < cursor
    ensures IsRespelledFor(text + source[cursor..], source, tokens, flags)
  {
    var out := text + source[cursor..];
    forall j | 0 <= j < |source| ensures out[j] == if IsUnderscore(tokens, flags, j) then ' ' else source[j] {
      if j < cursor { assert source[..cursor][j] == source[j]; }
    }
  }

  // ---------- which files fail ----------

  predicate IsHeaderKeyword(t: Token) { t.kind.Workflow? || t.kind.Service? }

  /** No header keyword comes before the end of another one's header. */
  ghost predicate HeadersApart(tokens: seq<Token>) {
    forall i, j :: 0 <= i < j < |tokens| && IsHeaderKeyword(tokens[j]) && ScanStart(tokens, i).Some? ==>
      HeaderEnd(tokens, ScanStart(tokens, i).value) <= j
  }

  lemma ScanStartsBehind(tokens: seq<Token>, i: nat)
    requires i < |tokens| && ScanStart(tokens, i).Some?
    ensures IsHeaderKeyword(tokens[i]) && ScanStart(tokens, i).value > i
  {}

  /** In particular, a file whose headers are apart is respelled. */
  lemma ApartIsRespelled(tokens: seq<Token>)
    requires HeadersApart(tokens)
    ensures !HeadersClash(tokens)
  {
    hide ScanStart, IsLegacy;
    forall i, j, a, b | 0 <= i < j < |tokens| && Names(tokens, i, a) && Names(tokens, j, b) ensures a < b {
      ScanStartsBehind(tokens, j);
    }
  }

  function TokensOf(kinds: seq<Kind>, at: seq<(nat, nat)>): seq<Token>
    requires |kinds| == |at|
  {
    seq(|kinds|, i requires 0 <= i < |kinds| => Token(kinds[i], at[i].0, at[i].1))
  }

  /** A `service` keyword inside the header of another holds the same name again:
      `service a service b rate_limit {`. */
  lemma NestedHeadersFail(a: string, b: string, at: seq<(nat, nat)>)
    requires |at| == 6
    ensures HeadersClash(TokensOf([Service, Ident(a), Service, Ident(b), Ident(LEGACY), LBrace], at))
  {
    var tokens := TokensOf([Service, Ident(a), Service, Ident(b), Ident(LEGACY), LBrace], at);
    assert HeaderEnd(tokens, 4) == 5 && HeaderEnd(tokens, 3) == 5 && HeaderEnd(tokens, 2) == 5;
    assert ScanStart(tokens, 0) == Some(2) && ScanStart(tokens, 2) == Some(4);
    assert Names(tokens, 0, 4) && Names(tokens, 2, 4);
    assert Clash(tokens, 0, 2) && ClashesWithEarlier(tokens, 2);
  }

  lemma StartsAt(tokens: seq<Token>, i: nat, r: nat)
    requires i < |tokens| && tokens[i].kind.Workflow? && IsMetadataStart(tokens, i + 1, r)
    ensures ScanStart(tokens, i) == Some(r)
  {
    MetadataStartIsUnique(tokens, i + 1, r, MetadataStart(tokens, i + 1).value);
  }

  /** Two headers clash without holding a common name when one lies in the parameters of the
      other: `workflow w ( service a rate_limit { ) rate_limit {`. */
  lemma HeaderInParametersFails(w: string, a: string, at: seq<(nat, nat)>)
    requires |at| == 10
    ensures HeadersClash(TokensOf([Workflow, Ident(w), LParen, Service, Ident(a), Ident(LEGACY), LBrace, RParen,
                                   Ident(LEGACY), LBrace], at))
  {
    var tokens := TokensOf([Workflow, Ident(w), LParen, Service, Ident(a), Ident(LEGACY), LBrace, RParen, Ident(LEGACY),
                            LBrace], at);
    assert Depth(tokens, 2, 2) == 0 && Depth(tokens, 2, 3) == 1 && Depth(tokens, 2, 4) == 1 && Depth(tokens, 2, 5) == 1;
    assert Depth(tokens, 2, 6) == 1 && Depth(tokens, 2, 7) == 1 && Depth(tokens, 2, 8) == 0;
    assert Opens(tokens, 1, 2) && ClosesFrom(tokens, 2, 8);
    StartsAt(tokens, 0, 8);
    assert ScanStart(tokens, 3) == Some(5);
    assert HeaderEnd(tokens, 8) == 9 && HeaderEnd(tokens, 5) == 6;
    assert Names(tokens, 0, 8) && Names(tokens, 3, 5);
    assert Clash(tokens, 0, 3) && ClashesWithEarlier(tokens, 3);
  }
}
