/**
 Names squeezed to what Kubernetes, systemd and the module system accept
 (`deploy.rs`, `migration.rs`): foreign characters become separators, runs of
 separators become one, and separators at the ends go.
 */
module Names {
  import opened Text

  function ToLower(c: char): char {
    if IsUpper(c) then ((c as int + 32) as char) else c
  }

  // ---------- squeezing runs ----------

  predicate HasPair(s: string, c: char) {
    exists i :: 0 <= i < |s| - 1 && s[i] == c && s[i + 1] == c
  }

  /** `replace` of two separators by one: left to right, without overlap. */
  function ReplacePairs(s: string, c: char): (r: string)
    ensures |r| <= |s|
  {
    if |s| >= 2 && s[0] == c && s[1] == c then [c] + ReplacePairs(s[2..], c)
    else if s == "" then ""
    else [s[0]] + ReplacePairs(s[1..], c)
  }

  /** The one-pass form: a separator right before another one is dropped. */
  function Collapse(s: string, c: char): (r: string)
    ensures r == "" <==> s == ""
    ensures s != "" ==> r[0] == s[0]
  {
    if s == "" then ""
    else if |s| >= 2 && s[0] == c && s[1] == c then Collapse(s[1..], c)
    else [s[0]] + Collapse(s[1..], c)
  }

  lemma {:induction false} ReplacingShortens(s: string, c: char)
    requires HasPair(s, c)
    ensures |ReplacePairs(s, c)| < |s|
  {
    if !(s[0] == c && s[1] == c) {
      var i :| 0 <= i < |s| - 1 && s[i] == c && s[i + 1] == c;
      assert s[1..][i - 1] == c && s[1..][i] == c;
      ReplacingShortens(s[1..], c);
    }
  }

  lemma {:induction false} CollapsingPairless(s: string, c: char)
    requires !HasPair(s, c)
    ensures Collapse(s, c) == s
  {
    if s != "" {
      assert |s| >= 2 ==> !(s[0] == c && s[0 + 1] == c);
      forall i | 0 <= i < |s[1..]| - 1 ensures !(s[1..][i] == c && s[1..][i + 1] == c) {
        assert s[1..][i] == s[i + 1] && s[1..][i + 1] == s[i + 1 + 1];
      }
      CollapsingPairless(s[1..], c);
    }
  }

  lemma CollapseCons(x: char, s: string, c: char)
    ensures Collapse([x] + s, c) ==
            if x == c && StartsWith(Collapse(s, c), c) then Collapse(s, c) else [x] + Collapse(s, c)
  {
    assert ([x] + s)[1..] == s;
  }

  lemma {:induction false} CollapseReplaced(s: string, c: char)
    ensures Collapse(ReplacePairs(s, c), c) == Collapse(s, c)
    decreases |s|
  {
    hide Collapse;
    if |s| >= 2 && s[0] == c && s[1] == c {
      CollapseReplaced(s[2..], c);
      CollapseCons(c, ReplacePairs(s[2..], c), c);
      CollapseCons(c, s[2..], c);
      CollapseCons(c, [c] + s[2..], c);
      assert s == [c] + ([c] + s[2..]);
    } else if s != "" {
      CollapseReplaced(s[1..], c);
      CollapseCons(s[0], ReplacePairs(s[1..], c), c);
      CollapseCons(s[0], s[1..], c);
      assert s == [s[0]] + s[1..];
    }
  }

  /** The loop of repeated replacement ends, and does what one pass does. */
  method Squeeze(s: string, c: char) returns (out: string)
    ensures out == Collapse(s, c) && !HasPair(out, c)
  {
    hide Collapse, ReplacePairs;
    out := s;
    while HasPair(out, c)
      invariant Collapse(out, c) == Collapse(s, c)
      decreases |out|
    {
      ReplacingShortens(out, c);
      CollapseReplaced(out, c);
      out := ReplacePairs(out, c);
    }
    CollapsingPairless(out, c);
  }

  // ---------- the words between separators ----------

  /** The maximal runs without the separator, in order. */
  function Words(s: string, c: char): (words: seq<string>)
    ensures s != "" && s[0] != c ==> words != []
  {
    if s == "" then []
    else
      var words := Words(s[1..], c);
      if s[0] == c then words
      else if |s| == 1 || s[1] == c then [[s[0]]] + words
      else [[s[0]] + words[0]] + words[1..]
  }

  function JoinWords(words: seq<string>, c: char): string {
    if |words| == 0 then "" else if |words| == 1 then words[0] else words[0] + [c] + JoinWords(words[1..], c)
  }

  /** Non-empty words made of `allowed` characters, none of them the separator. */
  ghost predicate AreWords(words: seq<string>, c: char, allowed: set<char>) {
    forall w :: w in words ==> IsWord(w, c, allowed)
  }

  ghost predicate IsWord(w: string, c: char, allowed: set<char>) {
    w != "" && c !in w && forall x :: x in w ==> x in allowed
  }

  lemma LaterWords(words: seq<string>, c: char, allowed: set<char>)
    requires words != [] && AreWords(words, c, allowed)
    ensures IsWord(words[0], c, allowed) && AreWords(words[1..], c, allowed)
  {
    hide IsWord;
    assert words[0] in words;
    assert forall w :: w in words[1..] ==> w in words;
  }

  lemma FirstWord(word: string, words: seq<string>, c: char, allowed: set<char>)
    requires IsWord(word, c, allowed) && AreWords(words, c, allowed)
    ensures AreWords([word] + words, c, allowed)
  {}

  lemma {:induction false} WordsAreWords(s: string, c: char, allowed: set<char>)
    requires forall x :: x in s && x != c ==> x in allowed
    ensures AreWords(Words(s, c), c, allowed)
  {
    hide AreWords, IsWord;
    if s == "" {
      NoneAreWords(c, allowed);
    } else {
      assert s[0] in s && forall x :: x in s[1..] ==> x in s;
      WordsAreWords(s[1..], c, allowed);
      var words := Words(s[1..], c);
      if s[0] != c {
        if |s| == 1 || s[1] == c {
          OneLetter(s[0], c, allowed);
          FirstWord([s[0]], words, c, allowed);
        } else {
          LaterWords(words, c, allowed);
          OneLetterMore(s[0], words[0], c, allowed);
          FirstWord([s[0]] + words[0], words[1..], c, allowed);
        }
      }
    }
  }

  lemma NoneAreWords(c: char, allowed: set<char>)
    ensures AreWords([], c, allowed)
  {}

  lemma OneLetter(x: char, c: char, allowed: set<char>)
    requires x != c && x in allowed
    ensures IsWord([x], c, allowed)
  {}

  lemma OneLetterMore(x: char, w: string, c: char, allowed: set<char>)
    requires x != c && x in allowed && IsWord(w, c, allowed)
    ensures IsWord([x] + w, c, allowed)
  {}

  function Edge(present: bool, c: char): string {
    if present then [c] else ""
  }

  /** Words between single separators, with a separator at an end that has one. */
  function WithEdges(s: string, c: char): string {
    Edge(StartsWith(s, c), c) + JoinWords(Words(s, c), c) + Edge(Words(s, c) != [] && EndsWith(s, c), c)
  }

  /** After the squeeze, words stand between single separators. */
  lemma {:induction false} CollapseJoinsWords(s: string, c: char)
    ensures Collapse(s, c) == WithEdges(s, c)
  {
    hide WithEdges;
    if s == "" {
      NoEdges(c);
    } else {
      CollapseJoinsWords(s[1..], c);
      CollapseCons(s[0], s[1..], c);
      assert s == [s[0]] + s[1..];
      if s[0] == c {
        SeparatorFirst(s, c);
      } else if |s| == 1 || s[1] == c {
        NewWordFirst(s, c);
      } else {
        LongerWordFirst(s, c);
      }
    }
  }

  lemma NoEdges(c: char)
    ensures WithEdges("", c) == ""
  {}

  lemma SeparatorFirst(s: string, c: char)
    requires s != "" && s[0] == c
    ensures WithEdges(s, c) == if StartsWith(s[1..], c) then WithEdges(s[1..], c) else [c] + WithEdges(s[1..], c)
  {
    hide JoinWords;
    NoWordsJoin(c);
  }

  lemma NewWordFirst(s: string, c: char)
    requires s != "" && s[0] != c && (|s| == 1 || s[1] == c)
    ensures WithEdges(s, c) == [s[0]] + WithEdges(s[1..], c)
  {
    hide JoinWords;
    var words := Words(s[1..], c);
    NoWordsJoin(c);
    JoinOne([s[0]], c);
    assert [[s[0]]] + [] == [[s[0]]];
    if words != [] {
      JoinMore([s[0]], words, c);
    } else if |s| > 1 {
      OnlySeparators(s[1..], c);
    }
  }

  lemma {:induction false} OnlySeparators(s: string, c: char)
    requires Words(s, c) == [] && s != ""
    ensures EndsWith(s, c)
  {
    if |s| > 1 {
      OnlySeparators(s[1..], c);
    }
  }

  lemma LongerWordFirst(s: string, c: char)
    requires |s| > 1 && s[0] != c && s[1] != c
    ensures WithEdges(s, c) == [s[0]] + WithEdges(s[1..], c)
  {
    ExtendFirstWord(s[0], Words(s[1..], c), c);
  }

  lemma ExtendFirstWord(x: char, words: seq<string>, c: char)
    requires words != []
    ensures JoinWords([[x] + words[0]] + words[1..], c) == [x] + JoinWords(words, c)
  {
    var longer := [[x] + words[0]] + words[1..];
    assert longer[1..] == words[1..];
  }

  lemma {:induction false} JoinedEnds(words: seq<string>, c: char, allowed: set<char>)
    requires AreWords(words, c, allowed) && words != []
    ensures var s := JoinWords(words, c); s != "" && s[0] != c && s[|s| - 1] != c && s[0] == words[0][0]
  {
    hide AreWords;
    LaterWords(words, c, allowed);
    if |words| > 1 {
      JoinedEnds(words[1..], c, allowed);
    }
  }

  lemma TrimEdges(core: string, left: bool, right: bool, c: char)
    requires core != "" ==> core[0] != c && core[|core| - 1] != c
    requires core == "" ==> !right
    ensures TrimMatches(Edge(left, c) + core + Edge(right, c), c) == core
  {
    hide TrimMatches;
    var rest := core + Edge(right, c);
    TrimNothing(core, c);
    if right {
      TrimLast(core, c);
    } else {
      assert rest == core;
    }
    if left {
      TrimFirst(rest, c);
      assert [c] + core + Edge(right, c) == [c] + rest;
    } else {
      assert "" + core + Edge(right, c) == rest;
    }
  }

  lemma TrimFirst(s: string, c: char)
    ensures TrimMatches([c] + s, c) == TrimMatches(s, c)
  {
    assert ([c] + s)[1..] == s;
  }

  lemma TrimLast(s: string, c: char)
    requires s != "" && s[0] != c
    ensures TrimMatches(s + [c], c) == TrimMatches(s, c)
  {
    assert (s + [c])[..|s|] == s;
  }

  lemma TrimNothing(s: string, c: char)
    requires s != "" ==> s[0] != c && s[|s| - 1] != c
    ensures TrimMatches(s, c) == s
  {}

  /** Squeezing and trimming leaves the words, joined by single separators. */
  lemma SqueezedIsJoined(s: string, c: char)
    ensures TrimMatches(Collapse(s, c), c) == JoinWords(Words(s, c), c)
  {
    hide Collapse, TrimMatches;
    var allowed := set x | x in s;
    WordsAreWords(s, c, allowed);
    CollapseJoinsWords(s, c);
    if Words(s, c) != [] {
      JoinedEnds(Words(s, c), c, allowed);
    }
    TrimEdges(JoinWords(Words(s, c), c), StartsWith(s, c), Words(s, c) != [] && EndsWith(s, c), c);
  }

  /** Joined words split into the same words. */
  lemma {:induction false} WordsOfJoined(words: seq<string>, c: char, allowed: set<char>)
    requires AreWords(words, c, allowed)
    ensures Words(JoinWords(words, c), c) == words
  {
    hide AreWords;
    if words != [] {
      var w := words[0];
      LaterWords(words, c, allowed);
      if |words| == 1 {
        WordThenRest(w, "", c);
        assert w + "" == w && words == [w];
      } else {
        WordsOfJoined(words[1..], c, allowed);
        var rest := [c] + JoinWords(words[1..], c);
        assert rest[1..] == JoinWords(words[1..], c);
        assert w + [c] + JoinWords(words[1..], c) == w + rest;
        WordThenRest(w, rest, c);
      }
    }
  }

  lemma NoWords(c: char)
    ensures Words("", c) == []
  {}

  lemma SeparatorThenWords(s: string, c: char)
    ensures Words([c] + s, c) == Words(s, c)
  {
    assert ([c] + s)[1..] == s;
  }

  lemma {:induction false} WordThenRest(w: string, rest: string, c: char)
    requires w != "" && c !in w && (rest == "" || rest[0] == c)
    ensures Words(w + rest, c) == [w] + Words(rest, c)
  {
    assert (w + rest)[1..] == w[1..] + rest;
    assert w[0] in w;
    if |w| == 1 {
      assert w[1..] + rest == rest;
      assert w == [w[0]];
    } else {
      assert w[1] in w;
      WordThenRest(w[1..], rest, c);
      assert [w[0]] + w[1..] == w;
    }
  }

  lemma {:induction false} JoinedCharacters(words: seq<string>, c: char, allowed: set<char>)
    requires AreWords(words, c, allowed)
    ensures forall x :: x in JoinWords(words, c) ==> x == c || x in allowed
  {
    hide AreWords;
    if words != [] {
      LaterWords(words, c, allowed);
      if |words| > 1 {
        JoinedCharacters(words[1..], c, allowed);
      }
    }
  }

  // ---------- one definition for the three names ----------

  ghost const LOWER_ALNUM: set<char> := set x: char | IsLower(x) || IsDigit(x)

  /** Characters outside `kept` become the separator, the others lose their case. */
  function Mapped(name: string, c: char, kept: set<char>): (r: string)
    ensures |r| == |name|
  {
    seq(|name|, i requires 0 <= i < |name| =>
      if IsAlphanumeric(name[i]) || name[i] in kept then ToLower(name[i]) else c)
  }

  /** The words of a name, joined by single separators. */
  function Squeezed(name: string, c: char, kept: set<char>): string {
    JoinWords(Words(Mapped(name, c, kept), c), c)
  }

  lemma LowerIsLowerAlnum(x: char)
    requires IsAlphanumeric(x)
    ensures ToLower(x) in LOWER_ALNUM
  {}

  lemma MappedWords(name: string, c: char, kept: set<char>)
    requires forall x :: x in kept ==> !IsUpper(x)
    ensures AreWords(Words(Mapped(name, c, kept), c), c, kept + LOWER_ALNUM)
  {
    hide Words, LOWER_ALNUM;
    var s := Mapped(name, c, kept);
    forall x | x in s && x != c ensures x in kept + LOWER_ALNUM {
      var i :| 0 <= i < |s| && s[i] == x;
      if IsAlphanumeric(name[i]) { LowerIsLowerAlnum(name[i]); }
    }
    WordsAreWords(s, c, kept + LOWER_ALNUM);
  }

  lemma MappingSqueezed(s: string, c: char, kept: set<char>)
    requires forall x :: x in s ==> x == c || x in kept || x in LOWER_ALNUM
    requires forall x :: x in kept ==> !IsUpper(x)
    requires !IsAlphanumeric(c)
    ensures Mapped(s, c, kept) == s
  {
    forall i | 0 <= i < |s| ensures Mapped(s, c, kept)[i] == s[i] {
      assert s[i] in s;
    }
  }

  /** A squeezed name is squeezed text, and squeezing it again changes nothing. */
  lemma SqueezedIsStable(name: string, c: char, kept: set<char>)
    requires !IsAlphanumeric(c) && forall x :: x in kept ==> !IsUpper(x)
    ensures var r := Squeezed(name, c, kept); Squeezed(r, c, kept) == r
    ensures var r := Squeezed(name, c, kept);
            && (forall x :: x in r ==> x == c || x in kept || x in LOWER_ALNUM)
            && (r != "" ==> r[0] != c && r[|r| - 1] != c)
  {
    hide Words, JoinWords, Mapped, LOWER_ALNUM;
    var words := Words(Mapped(name, c, kept), c);
    var allowed := kept + LOWER_ALNUM;
    MappedWords(name, c, kept);
    JoinedCharacters(words, c, allowed);
    if words != [] { JoinedEnds(words, c, allowed); } else { NoWordsJoin(c); }
    WordsOfJoined(words, c, allowed);
    MappingSqueezed(JoinWords(words, c), c, kept);
  }

  lemma NoWordsJoin(c: char)
    ensures JoinWords([], c) == ""
  {}

  method SqueezeName(name: string, c: char, kept: set<char>) returns (out: string)
    ensures out == Squeezed(name, c, kept)
  {
    hide Collapse, TrimMatches, Words, JoinWords;
    out := Mapped(name, c, kept);
    SqueezedIsJoined(out, c);
    out := Squeeze(out, c);
    out := TrimMatches(out, c);
  }

  // ---------- the names ----------

  function NameOr(squeezed: string, fallback: string): string {
    if squeezed == "" then fallback else squeezed
  }

  function KubernetesNameOf(name: string): string {
    NameOr(Squeezed(name, '-', {}), "num-app")
  }

  /** `kubernetes_name`. */
  method KubernetesName(name: string) returns (out: string)
    ensures out == KubernetesNameOf(name)
  {
    out := SqueezeName(name, '-', {});
    if out == "" {
      out := "num-app";
    }
  }

  function SystemdIdentifierOf(name: string): string {
    NameOr(Squeezed(name, '-', {'_'}), "num-app")
  }

  /** `systemd_identifier`: `-` is kept as the separator it is mapped to. */
  method SystemdIdentifier(name: string) returns (out: string)
    ensures out == SystemdIdentifierOf(name)
  {
    out := SqueezeName(name, '-', {'_'});
    if out == "" {
      out := "num-app";
    }
  }

  function Utf8Length(c: char): nat {
    if (c as int) < 0x80 then 1 else if (c as int) < 0x800 then 2 else if (c as int) < 0x10000 then 3 else 4
  }

  /** `str::len`. */
  function ByteLength(s: string): (n: nat)
    ensures n >= |s|
  {
    if s == "" then 0 else Utf8Length(s[0]) + ByteLength(s[1..])
  }

  predicate IsLabelEnd(c: char) { IsLower(c) || IsDigit(c) }

  /** `is_kubernetes_dns_label`. */
  predicate IsDnsLabel(value: string) {
    && value != "" && ByteLength(value) <= 63
    && (forall c :: c in value ==> IsLower(c) || IsDigit(c) || c == '-')
    && IsLabelEnd(value[0]) && IsLabelEnd(value[|value| - 1])
  }

  lemma {:induction false} AsciiLength(s: string)
    requires forall c :: c in s ==> (c as int) < 0x80
    ensures ByteLength(s) == |s|
  {
    if s != "" {
      assert s[0] in s && forall c :: c in s[1..] ==> c in s;
      AsciiLength(s[1..]);
    }
  }

  /** A Kubernetes name is a DNS label exactly when it is short enough. */
  lemma KubernetesNameIsLabel(name: string)
    ensures IsDnsLabel(KubernetesNameOf(name)) <==> |KubernetesNameOf(name)| <= 63
    ensures KubernetesNameOf(KubernetesNameOf(name)) == KubernetesNameOf(name)
  {
    hide Squeezed, ByteLength;
    var r := KubernetesNameOf(name);
    SqueezedIsStable(name, '-', {});
    FallbackIsStable({});
    assert r[0] in r && r[|r| - 1] in r;
    AsciiLength(r);
  }

  lemma FallbackIsStable(kept: set<char>)
    requires kept <= {'_'}
    ensures Squeezed("num-app", '-', kept) == "num-app"
  {
    hide Words, JoinWords, Mapped;
    var words := ["num", "app"];
    assert AreWords(words, '-', LOWER_ALNUM);
    JoinTwo("num", "app", '-');
    assert "num" + ['-'] + "app" == "num-app";
    WordsOfJoined(words, '-', LOWER_ALNUM);
    MappingSqueezed("num-app", '-', kept);
  }

  lemma JoinTwo(a: string, b: string, c: char)
    ensures JoinWords([a, b], c) == a + [c] + b
  {
    assert [a, b][1..] == [b];
  }

  /** A systemd identifier keeps underscores and never changes again. */
  lemma SystemdIdentifierIsStable(name: string)
    ensures var r := SystemdIdentifierOf(name);
            && SystemdIdentifierOf(r) == r && r != "" && r[0] != '-' && r[|r| - 1] != '-'
            && forall x :: x in r ==> x == '-' || x == '_' || IsLower(x) || IsDigit(x)
  {
    hide Squeezed;
    SqueezedIsStable(name, '-', {'_'});
    FallbackIsStable({'_'});
  }

  // ---------- module components ----------

  function ModuleComponentOf(component: string): string {
    var out := NameOr(Squeezed(component, '_', {}), "module");
    if IsLower(out[0]) then out else "m_" + out
  }

  /** `sanitize_module_component`. */
  method SanitizeModuleComponent(component: string) returns (out: string)
    ensures out == ModuleComponentOf(component)
  {
    hide Collapse, TrimMatches, Words, JoinWords;
    out := "";
    for i := 0 to |component|
      invariant out == Mapped(component, '_', {})[..i]
    {
      var ch := component[i];
      out := out + [if IsAlphanumeric(ch) || ch == '_' then ToLower(ch) else '_'];
    }
    assert out == Mapped(component, '_', {});
    SqueezedIsJoined(out, '_');
    SqueezedIsStable(component, '_', {});
    out := Squeeze(out, '_');
    out := TrimMatches(out, '_');
    assert out == Squeezed(component, '_', {});
    assert out != "" ==> out[0] in out;
    if out == "" {
      return "module";
    }
    if !(IsLower(out[0]) || IsUpper(out[0]) || out[0] == '_') {
      out := "m_" + out;
    }
  }

  /** A module component of the language: a lower-case letter, then letters, digits and `_`. */
  predicate IsIdentifier(s: string) {
    s != "" && IsLower(s[0]) && forall x :: x in s ==> IsLower(x) || IsDigit(x) || x == '_'
  }

  /** Every component comes out as an identifier that sanitizing leaves alone. */
  lemma ModuleComponentIsIdentifier(component: string)
    ensures IsIdentifier(ModuleComponentOf(component))
    ensures ModuleComponentOf(ModuleComponentOf(component)) == ModuleComponentOf(component)
  {
    hide Squeezed;
    var s := Squeezed(component, '_', {});
    SqueezedIsStable(component, '_', {});
    if s == "" {
      OneWordIsStable("module", '_');
    } else if !IsLower(s[0]) {
      assert s[0] in s;
      PrefixIsStable(component);
    }
  }

  lemma OneWordIsStable(w: string, c: char)
    requires !IsAlphanumeric(c) && w != "" && forall x :: x in w ==> IsLower(x) || IsDigit(x)
    ensures Squeezed(w, c, {}) == w
  {
    hide Words, JoinWords, Mapped;
    assert AreWords([w], c, LOWER_ALNUM);
    JoinOne(w, c);
    WordsOfJoined([w], c, LOWER_ALNUM);
    MappingSqueezed(w, c, {});
  }

  lemma JoinOne(w: string, c: char)
    ensures JoinWords([w], c) == w
  {}

  lemma JoinMore(w: string, words: seq<string>, c: char)
    requires words != []
    ensures JoinWords([w] + words, c) == w + [c] + JoinWords(words, c)
  {
    assert ([w] + words)[1..] == words;
  }

  /** The `m_` prefix is one more word, so the squeeze keeps it. */
  lemma PrefixIsStable(component: string)
    requires Squeezed(component, '_', {}) != ""
    ensures Squeezed("m_" + Squeezed(component, '_', {}), '_', {}) == "m_" + Squeezed(component, '_', {})
  {
    hide Words, JoinWords, Mapped;
    var words := Words(Mapped(component, '_', {}), '_');
    MappedWords(component, '_', {});
    if words == [] { NoWordsJoin('_'); }
    var more := ["m"] + words;
    assert AreWords(more, '_', {} + LOWER_ALNUM);
    JoinMore("m", words, '_');
    JoinedCharacters(more, '_', {} + LOWER_ALNUM);
    WordsOfJoined(more, '_', {} + LOWER_ALNUM);
    assert "m" + ['_'] == "m_";
    MappingSqueezed(JoinWords(more, '_'), '_', {});
  }
}
