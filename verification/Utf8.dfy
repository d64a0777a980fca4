/** The bytes of a string (`str::as_bytes`), as section 3 of RFC 3629 lays them out. */
module Utf8 {
  import opened Wrappers
  import opened Sha256Standard

  function Tail(x: nat): Byte { (0x80 + x % 64) as Byte }

  function EncodeChar(c: char): (bytes: seq<Byte>)
    ensures bytes != []
  {
    var x := c as int;
    if x < 0x80 then [x as Byte]
    else if x < 0x800 then [(0xC0 + x / 64) as Byte, Tail(x)]
    else if x < 0x10000 then [(0xE0 + x / 4096) as Byte, Tail(x / 64), Tail(x)]
    else [(0xF0 + x / 262144) as Byte, Tail(x / 4096), Tail(x / 64), Tail(x)]
  }

  function Encode(s: string): (bytes: seq<Byte>)
    ensures s != "" ==> bytes != []
  {
    if s == "" then [] else EncodeChar(s[0]) + Encode(s[1..])
  }

  /** The first byte gives away how many follow. */
  function SizeFrom(first: Byte): nat {
    if first < 0x80 then 1 else if first < 0xE0 then 2 else if first < 0xF0 then 3 else 4
  }

  lemma CharSize(c: char)
    ensures |EncodeChar(c)| == SizeFrom(EncodeChar(c)[0])
  {}

  lemma TailDetermines(x: nat, y: nat)
    requires Tail(x) == Tail(y)
    ensures x % 64 == y % 64
  {}

  /** The bytes after the first hold the low-order digits in base 64. */
  lemma TailsOf(c: char)
    ensures var x, bytes := c as int, EncodeChar(c);
            && (|bytes| > 1 ==> bytes[|bytes| - 1] == Tail(x))
            && (|bytes| > 2 ==> bytes[|bytes| - 2] == Tail(x / 64))
            && (|bytes| > 3 ==> bytes[|bytes| - 3] == Tail(x / 4096))
  {
    hide Tail;
  }

  /** ... and the first byte the rest. */
  lemma FirstDetermines(c: char, d: char)
    requires EncodeChar(c)[0] == EncodeChar(d)[0] && |EncodeChar(c)| == |EncodeChar(d)|
    ensures var x, y := c as int, d as int;
            match |EncodeChar(c)| {
              case 1 => x == y
              case 2 => x / 64 == y / 64
              case 3 => x / 4096 == y / 4096
              case _ => x / 262144 == y / 262144
            }
  {
    hide Tail;
  }

  lemma BySixBits(x: nat, y: nat)
    requires x / 64 == y / 64 && x % 64 == y % 64
    ensures x == y
  {}

  lemma Shifts(x: nat)
    ensures x / 64 / 64 == x / 4096 && x / 4096 / 64 == x / 262144
  {}

  lemma EncodeCharInjective(c: char, d: char)
    requires EncodeChar(c) == EncodeChar(d)
    ensures c == d
  {
    hide Tail, EncodeChar;
    var x, y := c as int, d as int;
    var n := |EncodeChar(c)|;
    SizeIsSmall(c);
    TailsOf(c);
    TailsOf(d);
    FirstDetermines(c, d);
    Shifts(x);
    Shifts(y);
    if n > 3 {
      TailDetermines(x / 4096, y / 4096);
      BySixBits(x / 4096, y / 4096);
    }
    if n > 2 {
      TailDetermines(x / 64, y / 64);
      BySixBits(x / 64, y / 64);
    }
    if n > 1 {
      TailDetermines(x, y);
      BySixBits(x, y);
    }
  }

  lemma SizeIsSmall(c: char)
    ensures 1 <= |EncodeChar(c)| <= 4
  {
    hide Tail;
  }

  /** Different strings have different bytes. */
  lemma {:induction false} EncodeInjective(s: string, t: string)
    requires Encode(s) == Encode(t)
    ensures s == t
  {
    hide EncodeChar;
    if s != "" && t != "" {
      var a, b := EncodeChar(s[0]), EncodeChar(t[0]);
      assert Encode(s)[0] == a[0] && Encode(t)[0] == b[0];
      CharSize(s[0]);
      CharSize(t[0]);
      assert Encode(s)[..|a|] == a && Encode(t)[..|b|] == b;
      EncodeCharInjective(s[0], t[0]);
      assert Encode(s)[|a|..] == Encode(s[1..]) && Encode(t)[|b|..] == Encode(t[1..]);
      EncodeInjective(s[1..], t[1..]);
      assert s == [s[0]] + s[1..] && t == [t[0]] + t[1..];
    }
  }

  lemma CharHasNoNul(c: char)
    requires c != '\0'
    ensures 0 !in EncodeChar(c)
  {}

  lemma {:induction false} EncodeHasNoNul(s: string)
    requires '\0' !in s
    ensures 0 !in Encode(s)
  {
    hide EncodeChar;
    if s != "" {
      assert s[0] in s;
      CharHasNoNul(s[0]);
      EncodeHasNoNul(s[1..]);
    }
  }

  // ---------- reading bytes as text ----------

  /** The number that the bits of a sequence spell, if each byte is of its kind. */
  function Spelled(bytes: seq<Byte>): int
    requires 1 <= |bytes| <= 4
  {
    if |bytes| == 1 then bytes[0] as int
    else if |bytes| == 2 then 64 * (bytes[0] as int - 0xC0) + LowBits(bytes[1])
    else if |bytes| == 3 then 4096 * (bytes[0] as int - 0xE0) + 64 * LowBits(bytes[1]) + LowBits(bytes[2])
    else 262144 * (bytes[0] as int - 0xF0) + 4096 * LowBits(bytes[1]) + 64 * LowBits(bytes[2]) + LowBits(bytes[3])
  }

  function LowBits(tail: Byte): int { tail as int - 0x80 }

  /** The first character; nothing if the bytes are not exactly what encodes one, be they cut
      short, longer than needed, or a surrogate. */
  function DecodeChar(bytes: seq<Byte>): (c: Option<char>)
    requires bytes != []
    ensures c.Some? ==> EncodeChar(c.value) <= bytes
  {
    var n := SizeFrom(bytes[0]);
    if |bytes| < n then None
    else
      var x := Spelled(bytes[..n]);
      if (0 <= x < 0xD800 || 0xE000 <= x < 0x11_0000) && EncodeChar(x as char) == bytes[..n]
      then Some(x as char)
      else None
  }

  /** `String::from_utf8`. */
  function Decode(bytes: seq<Byte>): Option<string> {
    if bytes == [] then Some("")
    else
      var c := DecodeChar(bytes);
      if c.None? then None
      else
        var rest := Decode(bytes[|EncodeChar(c.value)|..]);
        if rest.None? then None else Some([c.value] + rest.value)
  }

  lemma SpelledTails(x: nat)
    ensures LowBits(Tail(x)) == x % 64
  {}

  lemma SpelledChar(c: char)
    ensures 1 <= |EncodeChar(c)| <= 4 && Spelled(EncodeChar(c)) == c as int
  {
    hide Tail, LowBits;
    var x := c as int;
    SpelledTails(x);
    SpelledTails(x / 64);
    SpelledTails(x / 4096);
    Shifts(x);
    assert x == 64 * (x / 64) + x % 64;
    assert x / 64 == 64 * (x / 64 / 64) + x / 64 % 64;
    assert x / 4096 == 64 * (x / 4096 / 64) + x / 4096 % 64;
  }

  lemma DecodesFirst(c: char, rest: seq<Byte>)
    ensures EncodeChar(c) + rest != [] && DecodeChar(EncodeChar(c) + rest) == Some(c)
  {
    hide EncodeChar, Spelled, SizeFrom;
    var bytes := EncodeChar(c) + rest;
    CharSize(c);
    SizeIsSmall(c);
    SpelledChar(c);
    assert bytes[0] == EncodeChar(c)[0] && bytes[..|EncodeChar(c)|] == EncodeChar(c);
  }

  lemma {:induction false} DecodeEncoded(s: string)
    ensures Decode(Encode(s)) == Some(s)
  {
    hide EncodeChar, DecodeChar;
    if s != "" {
      var bytes := Encode(s);
      DecodeEncoded(s[1..]);
      DecodesFirst(s[0], Encode(s[1..]));
      assert bytes[|EncodeChar(s[0])|..] == Encode(s[1..]);
      assert s == [s[0]] + s[1..];
    }
  }

  lemma {:induction false} EncodeDecoded(bytes: seq<Byte>)
    requires Decode(bytes).Some?
    ensures Encode(Decode(bytes).value) == bytes
    decreases |bytes|
  {
    hide EncodeChar, DecodeChar;
    if bytes != [] {
      var c := DecodeChar(bytes).value;
      var rest := bytes[|EncodeChar(c)|..];
      EncodeDecoded(rest);
      assert Decode(bytes).value[1..] == Decode(rest).value;
      assert bytes == EncodeChar(c) + rest;
    }
  }

  /** Bytes decode to a text exactly if they are its encoding. */
  lemma DecodeIsInverse(bytes: seq<Byte>, s: string)
    ensures Decode(bytes) == Some(s) <==> Encode(s) == bytes
  {
    hide Encode, Decode;
    DecodeEncoded(s);
    if Decode(bytes).Some? { EncodeDecoded(bytes); }
  }
}
