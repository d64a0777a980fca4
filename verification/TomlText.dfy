/**
 The line-level reading shared by the manifest reader and the lockfile reader:
 comments cut at the first `#`, keys and quoted strings taken as they stand.
 */
module TomlText {
  import opened Wrappers
  import opened Text

  /** A line without its comment and surrounding white space. */
  function Clean(line: string): string {
    Trim(Before(line, '#'))
  }

  /** `normalize_toml_key`. */
  function NormalizeKey(key: string): string {
    TrimMatches(TrimMatches(Trim(key), '"'), '\'')
  }

  /** `parse_toml_string`: the text between the outer quotes; nothing is unescaped. */
  function ParseTomlString(value: string): Option<string> {
    var v := Trim(value);
    if |v| < 2 || v[0] != '"' || v[|v| - 1] != '"' then None else Some(v[1..|v| - 1])
  }

  function ParseTomlU32(value: string): Option<nat> {
    ParseUnsigned(Trim(value), U32_MAX)
  }

  // ---------- line ends do not matter ----------

  lemma CleanIgnoresCr(line: string)
    ensures Clean(StripCr(line)) == Clean(line)
  {
    hide Find, TrimStart, TrimEnd;
    if EndsWith(line, '\r') {
      var l := line[..|line| - 1];
      assert line == l + "\r";
      if '#' in l {
        var (left, right) := SplitOnce(l, '#').value;
        BeforeAt(left, '#', right);
        BeforeAt(left, '#', right + "\r");
        assert line == left + ['#'] + (right + "\r");
      } else {
        var left, right := TrimSplits(l);
        assert line == left + Trim(l) + (right + "\r");
        TrimPadded(left, Trim(l), right + "\r");
      }
    }
  }

  function CleanAll(lines: seq<string>): seq<string> {
    seq(|lines|, i requires 0 <= i < |lines| => Clean(lines[i]))
  }

  /** Printed lines read back as the same cleaned lines. */
  lemma {:induction false} LinesOfUnlines(lines: seq<string>)
    requires forall line :: line in lines ==> '\n' !in line
    ensures CleanAll(Lines(Unlines(lines))) == CleanAll(lines)
  {
    hide Clean;
    if lines != [] {
      LinesOfUnlines(lines[1..]);
      LinesCons(lines[0], Unlines(lines[1..]));
      CleanIgnoresCr(lines[0]);
      assert CleanAll(lines) == [Clean(lines[0])] + CleanAll(lines[1..]);
    }
  }

  // ---------- a printed `key = value` line ----------

  predicate IsPlainKey(k: string) {
    k != "" && forall c :: c in k ==> IsLower(c) || c == '_'
  }

  lemma NormalizePlainKey(k: string)
    requires IsPlainKey(k)
    ensures NormalizeKey(k + " ") == k
  {
    hide Trim, IsWhitespace;
    PlainKeyEnds(k);
    BlankIsWhitespace();
    TrimPadded("", k, " ");
    assert "" + k + " " == k + " ";
    TrimMatchesNothing(k, '"');
    TrimMatchesNothing(k, '\'');
  }

  lemma PlainKeyEnds(k: string)
    requires IsPlainKey(k)
    ensures IsTrimmed(k) && k[0] !in {'"', '\''} && k[|k| - 1] !in {'"', '\''}
  {
    assert k[0] in k && k[|k| - 1] in k;
  }

  lemma TrimMatchesNothing(s: string, c: char)
    requires s != "" && s[0] != c && s[|s| - 1] != c
    ensures TrimMatches(s, c) == s
  {}

  lemma BlankIsWhitespace()
    ensures AllWhitespace(" ")
  {}

  lemma PlainKeyIsTrimmed(k: string)
    requires IsPlainKey(k)
    ensures !IsWhitespace(k[0]) && !IsWhitespace('=')
  {
    assert k[0] in k;
  }

  /** Whatever the value is, the key reads back, and so does the value up to its first `#`. */
  lemma KeyLineReads(k: string, value: string) returns (rest: string)
    requires IsPlainKey(k)
    ensures Clean(k + " = " + value) == k + " =" + rest
    ensures SplitOnce(Clean(k + " = " + value), '=') == Some((k + " ", rest))
    ensures NormalizeKey(k + " ") == k
    ensures Trim(rest) == Clean(value)
  {
    hide Find, Trim, Before, SplitOnce, NormalizeKey, IsWhitespace;
    var shown := Before(value, '#');
    BeforePrefixed(k + " = ", value);
    var left, right := TrimSplits(shown);
    var core := Trim(shown);
    assert AllWhitespace(" " + left + right) && AllWhitespace(" " + left) by { BlankIsWhitespace(); }
    assert IsTrimmed(k + " =") by { PlainKeyIsTrimmed(k); }
    if core == "" {
      rest := "";
      assert k + " = " + shown == "" + (k + " =") + (" " + left + right);
      TrimPadded("", k + " =", " " + left + right);
    } else {
      rest := " " + left + core;
      assert k + " = " + shown == "" + (k + " =" + rest) + right;
      TrimPadded("", k + " =" + rest, right);
      assert rest == (" " + left) + core + "";
      TrimPadded(" " + left, core, "");
    }
    SplitOnceAt(k + " ", '=', rest);
    assert k + " =" + rest == k + " " + ['='] + rest;
    NormalizePlainKey(k);
  }

  lemma BeforePrefixed(prefix: string, s: string)
    requires '#' !in prefix
    ensures Before(prefix + s, '#') == prefix + Before(s, '#')
  {
    hide Find;
    if '#' in s {
      var (left, right) := SplitOnce(s, '#').value;
      BeforeAt(left, '#', right);
      BeforeAt(prefix + left, '#', right);
      assert prefix + s == (prefix + left) + ['#'] + right;
    }
  }

  lemma OneReads()
    ensures Clean("1") == "1" && ParseUnsigned("1", U32_MAX) == Some(1)
  {
    TrimIdempotent("1");
    assert "1"[..0] == "";
  }

  // ---------- how a line begins ----------

  predicate IsMark(mark: string) {
    mark != "" && '#' !in mark && !IsWhitespace(mark[0]) && !IsWhitespace(mark[|mark| - 1])
  }

  lemma CleanMarkIsRaw(mark: string, line: string)
    requires IsMark(mark) && mark <= Clean(line)
    ensures mark <= TrimStart(line)
  {
    hide Find, Trim;
    var shown := Before(line, '#');
    var left, right := TrimSplits(shown);
    var rest := line[|shown|..];
    var more := Clean(line)[|mark|..] + right + rest;
    assert line == shown + rest;
    assert line == left + (mark + more);
    TrimStartPadded(left, mark + more);
  }

  lemma RawMarkIsClean(mark: string, line: string)
    requires IsMark(mark) && mark <= TrimStart(line)
    ensures mark <= Clean(line)
  {
    hide Find, TrimEnd;
    var pad := TrimStartSplits(line);
    var more := TrimStart(line)[|mark|..];
    assert line == (pad + mark) + more;
    assert '#' !in pad by { assert !IsWhitespace('#'); }
    BeforePrefixed(pad + mark, more);
    var b := Before(more, '#');
    assert Before(line, '#') == pad + (mark + b);
    TrimStartPadded(pad, mark + b);
    assert TrimStart(mark + b) == mark + b;
    TrimEndKeeps(mark, b);
  }

  lemma {:induction false} TrimEndKeeps(front: string, tail: string)
    requires front != "" && !IsWhitespace(front[|front| - 1])
    ensures front <= TrimEnd(front + tail)
  {
    if tail == "" {
      assert front + tail == front;
    } else {
      assert (front + tail)[..|front + tail| - 1] == front + tail[..|tail| - 1];
      TrimEndKeeps(front, tail[..|tail| - 1]);
    }
  }
}
