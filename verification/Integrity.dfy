/**
 The streaming hasher of `integrity.rs`: a block buffer filled byte by byte, a
 running state, and a finalisation with two padding branches.
 */
module Integrity {
  import opened Sha256Standard

  class Sha256 {
    const state: array<Word>
    const buffer: array<Byte>
    var bufferLen: nat
    var bitLen: u64
    ghost var message: seq<Byte>  // every byte fed in so far
    ghost var blocks: nat         // how many whole blocks of it are compressed

    /** The buffer holds the unprocessed tail of the message, the state is the hash value
        after its whole blocks, and `bitLen` counts the bits of those blocks. */
    ghost predicate Valid()
      reads this, state, buffer
    {
      && state.Length == 8 && buffer.Length == 64 && bufferLen < 64
      && |message| == 64 * blocks + bufferLen
      && buffer[..bufferLen] == message[64 * blocks..]
      && state[..] == HashAfter(message, blocks)
      && bitLen == Wrapped(512 * blocks)
    }

    constructor ()
      ensures Valid() && fresh(state) && fresh(buffer) && message == []
    {
      state := new Word[8](i requires 0 <= i < 8 => H0()[i]);
      buffer := new Byte[64](_ => 0);
      bufferLen, bitLen, message, blocks := 0, 0, [], 0;
      new;
      assert state[..] == H0();
    }

    method Update(bytes: seq<Byte>)
      requires Valid()
      modifies this, state, buffer
      ensures Valid() && message == old(message) + bytes
    {
      hide HashAfter;
      for i := 0 to |bytes|
        invariant Valid() && message == old(message) + bytes[..i]
      {
        assert bytes[..i + 1] == bytes[..i] + [bytes[i]];
        UpdateByte(bytes[i]);
      }
      assert bytes[..|bytes|] == bytes;
    }

    /** One turn of the loop of `update`. */
    method UpdateByte(byte: Byte)
      requires Valid()
      modifies this, state, buffer
      ensures Valid() && message == old(message) + [byte]
    {
      hide HashAfter, Wrapped;
      HashAfterPrefix(message, [byte], blocks);
      buffer[bufferLen] := byte;
      bufferLen := bufferLen + 1;
      message := message + [byte];
      assert buffer[..bufferLen] == message[64 * blocks..];
      if bufferLen == 64 {
        assert buffer[..] == message[64 * blocks..64 * (blocks + 1)];
        CompressNext(message, blocks);
        WrapAdd(512 * blocks, 512);
        bitLen := Wrapped(bitLen as nat + 512);
        bufferLen := 0;
        blocks := blocks + 1;
      }
    }

    /** The final state words are the SHA-256 digest of everything fed in. */
    method Finalize() returns (hex: string)
      requires Valid()
      modifies this, state, buffer
      ensures hex == HexWords(Digest(old(message)))
    {
      hide HashAfter, Wrapped, Padding, Digest;
      ghost var m := message;
      HashAfterPrefix(m, Padding(|m|), blocks);
      WrapAdd(512 * blocks, 8 * bufferLen);
      var dataBits := Wrapped(bitLen as nat + bufferLen * 8);
      buffer[bufferLen] := 0x80;
      bufferLen := bufferLen + 1;
      assert buffer[..bufferLen] == m[64 * blocks..] + [0x80];
      CompressPadding(dataBits, m, blocks);
      hex := StateHex();
    }

    /** The two padding branches: the 0x80 byte is in place, and the length goes into this
        block if it still fits, else into one more. */
    method CompressPadding(bits: u64, ghost m: seq<Byte>, ghost n: nat)
      requires state.Length == 8 && buffer.Length == 64 && 64 * n <= |m| < 64 * (n + 1)
      requires bufferLen == |m| - 64 * n + 1 && buffer[..bufferLen] == m[64 * n..] + [0x80]
      requires state[..] == HashAfter(Pad(m), n) && bits == Wrapped(8 * |m|)
      modifies this`bufferLen, state, buffer
      ensures state[..] == Digest(m)
    {
      hide HashAfter, Wrapped, BigEndian, Pad, Zeros;
      ghost var p, tail := Pad(m), m[64 * n..];
      PadLayout(m, n);
      if bufferLen > 56 {
        FillZeros(bufferLen, 64);
        assert buffer[..] == tail + [0x80] + Zeros(63 - |tail|);
        CompressNext(p, n);
        bufferLen := 0;
        LayLastBlock(bits);
        assert buffer[..] == p[64 * (n + 1)..64 * (n + 2)];
        CompressNext(p, n + 1);
      } else {
        LayLastBlock(bits);
        assert buffer[..] == p[64 * n..64 * (n + 1)];
        CompressNext(p, n);
      }
    }

    /** Zeros up to byte 56, then the length. */
    method LayLastBlock(bits: u64)
      requires buffer.Length == 64 && bufferLen <= 56
      modifies buffer
      ensures buffer[..] == old(buffer[..bufferLen]) + Zeros(56 - bufferLen) + BigEndian(bits as nat, 8)
    {
      hide BigEndian, Zeros;
      FillZeros(bufferLen, 56);
      assert buffer[..56] == old(buffer[..bufferLen]) + Zeros(56 - bufferLen);
      StoreLength(bits);
    }

    /** Compressing block `n` of some data takes the state from H(n) to H(n + 1). */
    method CompressNext(ghost data: seq<Byte>, ghost n: nat)
      requires state.Length == 8 && buffer.Length == 64 && 64 * (n + 1) <= |data|
      requires state[..] == HashAfter(data, n) && buffer[..] == data[64 * n..64 * (n + 1)]
      modifies state
      ensures state[..] == HashAfter(data, n + 1)
    {
      hide CompressBlock;
      Compress();
    }

    method FillZeros(from: nat, to: nat)
      requires buffer.Length == 64 && from <= to <= 64
      modifies buffer
      ensures buffer[..] == old(buffer[..from]) + Zeros(to - from) + old(buffer[to..])
    {
      for i := from to to
        invariant buffer[..from] == old(buffer[..from]) && buffer[to..] == old(buffer[to..])
        invariant forall k :: from <= k < i ==> buffer[k] == 0
      {
        buffer[i] := 0;
      }
      assert buffer[from..to] == Zeros(to - from);
      assert buffer[..] == buffer[..from] + buffer[from..to] + buffer[to..];
    }

    method StoreLength(bits: u64)
      requires buffer.Length == 64
      modifies buffer
      ensures buffer[..] == old(buffer[..56]) + BigEndian(bits as nat, 8)
    {
      hide BigEndian;
      var field := BigEndian(bits as nat, 8);
      for i := 0 to 8
        invariant buffer[..56] == old(buffer[..56])
        invariant buffer[56..56 + i] == field[..i]
      {
        buffer[56 + i] := field[i];
      }
      assert buffer[..] == buffer[..56] + buffer[56..64];
    }

    method StateHex() returns (hex: string)
      requires state.Length == 8
      ensures hex == HexWords(state[..])
    {
      hex := "";
      for i := 0 to 8
        invariant hex == HexWords(state[..i])
      {
        assert state[..i + 1][..i] == state[..i];
        hex := hex + HexDigits(Value(state[i]), 8);
      }
      assert state[..8] == state[..];
    }

    method Compress()
      requires state.Length == 8 && buffer.Length == 64
      modifies state
      ensures state[..] == CompressBlock(old(state[..]), buffer[..])
    {
      hide Rounds, Add, CompressBlock;
      var words := Schedule();
      var v := RunRounds(words);
      CompressedWords(state[..], buffer[..], v);
      state[0] := Add(state[0], v.a);
      state[1] := Add(state[1], v.b);
      state[2] := Add(state[2], v.c);
      state[3] := Add(state[3], v.d);
      state[4] := Add(state[4], v.e);
      state[5] := Add(state[5], v.f);
      state[6] := Add(state[6], v.g);
      state[7] := Add(state[7], v.h);
    }

    /** The message schedule of the block in the buffer. */
    method Schedule() returns (words: array<Word>)
      requires buffer.Length == 64
      ensures fresh(words) && words.Length == 64
      ensures forall t :: 0 <= t < 64 ==> words[t] == W(buffer[..], t)
    {
      hide Add, WordAt, SmallSigma0, SmallSigma1;
      words := new Word[64](_ => 0);
      for index := 0 to 16
        invariant forall t :: 0 <= t < index ==> words[t] == W(buffer[..], t)
      {
        words[index] := WordAt(buffer[..], index);
      }
      for index := 16 to 64
        invariant forall t :: 0 <= t < index ==> words[t] == W(buffer[..], t)
      {
        var s0 := SmallSigma0(words[index - 15]);
        var s1 := SmallSigma1(words[index - 2]);
        SumOrder(words[index - 16], s0, words[index - 7], s1);
        words[index] := Add(Add(Add(words[index - 16], s0), words[index - 7]), s1);
      }
    }

    /** The 64 rounds over eight rolling variables. */
    method RunRounds(words: array<Word>) returns (v: Working)
      requires state.Length == 8 && buffer.Length == 64 && words.Length == 64
      requires forall t :: 0 <= t < 64 ==> words[t] == W(buffer[..], t)
      ensures v == Rounds(Variables(state[..]), buffer[..], 64)
    {
      hide Add, W, K, Ch, Maj, BigSigma0, BigSigma1;
      var a, b, c, d := state[0], state[1], state[2], state[3];
      var e, f, g, h := state[4], state[5], state[6], state[7];
      for index := 0 to 64
        invariant Working(a, b, c, d, e, f, g, h) == Rounds(Variables(state[..]), buffer[..], index)
      {
        var s1 := BigSigma1(e);
        var ch := Ch(e, f, g);
        var temp1 := Add(Add(Add(Add(h, s1), ch), K(index)), words[index]);
        var s0 := BigSigma0(a);
        var maj := Maj(a, b, c);
        var temp2 := Add(s0, maj);
        h := g;
        g := f;
        f := e;
        e := Add(d, temp1);
        d := c;
        c := b;
        b := a;
        a := Add(temp1, temp2);
      }
      v := Working(a, b, c, d, e, f, g, h);
    }
  }

  lemma CompressedWords(hash: seq<Word>, block: seq<Byte>, v: Working)
    requires |hash| == 8 && |block| == 64 && v == Rounds(Variables(hash), block, 64)
    ensures CompressBlock(hash, block) ==
            [Add(hash[0], v.a), Add(hash[1], v.b), Add(hash[2], v.c), Add(hash[3], v.d),
             Add(hash[4], v.e), Add(hash[5], v.f), Add(hash[6], v.g), Add(hash[7], v.h)]
  {
    hide Rounds, Add;
  }

  /** The program sums the terms of the schedule in another order than the standard. */
  lemma SumOrder(w16: Word, s0: Word, w7: Word, s1: Word)
    ensures Add(Add(Add(w16, s0), w7), s1) == Add(Add(Add(s1, w7), s0), w16)
  {
    hide Add;
    AddLaws(Add(w16, s0), w7, s1);
    AddLaws(w7, s1, s0);
    AddLaws(w16, s0, Add(w7, s1));
    AddLaws(s0, Add(w7, s1), w16);
    AddLaws(Add(s1, w7), s0, w16);
    AddLaws(w16, Add(s0, Add(w7, s1)), s0);
  }

  lemma AddLaws(x: Word, y: Word, z: Word)
    ensures Add(x, y) == Add(y, x) && Add(Add(x, y), z) == Add(x, Add(y, z))
  {
    hide Add;
    AddIs(x, y);
    AddIs(y, z);
    AddRegroups(x, y, z);
    AddCommutes(x, y);
  }

  lemma AddIs(x: Word, y: Word)
    ensures Add(x, y) == x + y
  {}

  lemma AddRegroups(x: Word, y: Word, z: Word)
    ensures Add(x, y + z) == Add(x + y, z)
  {}

  lemma AddCommutes(x: Word, y: Word)
    ensures Add(x, y) == Add(y, x)
  {}

  lemma WrapAdd(x: nat, y: nat)
    ensures Wrapped(Wrapped(x) as nat + y) == Wrapped(x + y)
  {}

  // ---------- rendering the state ----------

  function HexDigit(n: nat): (c: char)
    requires n < 16
    ensures '0' <= c <= '9' || 'a' <= c <= 'f'
  {
    "0123456789abcdef"[n]
  }

  /** The low-order `n` hexadecimal digits, zero-padded. */
  function HexDigits(x: nat, n: nat): (s: string)
    ensures |s| == n
    ensures forall c :: c in s ==> '0' <= c <= '9' || 'a' <= c <= 'f'
    decreases n
  {
    if n == 0 then "" else HexDigits(x / 16, n - 1) + [HexDigit(x % 16)]
  }

  function Value(w: Word): nat { w as nat }

  lemma ValueDetermines(x: Word, y: Word)
    ensures Value(x) < 0x1_0000_0000 && Value(y) < 0x1_0000_0000
    ensures Value(x) == Value(y) <==> x == y
  {
    assert Value(x) as Word == x && Value(y) as Word == y;
  }

  function HexWords(words: seq<Word>): (s: string)
    ensures |s| == 8 * |words|
    ensures forall c :: c in s ==> '0' <= c <= '9' || 'a' <= c <= 'f'
  {
    if |words| == 0 then ""
    else HexWords(words[..|words| - 1]) + HexDigits(Value(words[|words| - 1]), 8)
  }

  function Pow16(n: nat): (p: nat)
    ensures p > 0
  {
    if n == 0 then 1 else 16 * Pow16(n - 1)
  }

  /** The value of a hexadecimal digit, and the number that digits spell. */
  function DigitValue(c: char): int {
    if '0' <= c <= '9' then c as int - '0' as int else c as int - 'a' as int + 10
  }

  function Spelled(s: string): int {
    if s == "" then 0 else 16 * Spelled(s[..|s| - 1]) + DigitValue(s[|s| - 1])
  }

  lemma DigitSpells(n: nat)
    requires n < 16
    ensures DigitValue(HexDigit(n)) == n
  {}

  /** The digits spell the number they are printed for. */
  lemma {:induction false} HexDigitsSpell(x: nat, n: nat)
    requires x < Pow16(n)
    ensures Spelled(HexDigits(x, n)) == x
    decreases n
  {
    hide HexDigit, DigitValue;
    if n > 0 {
      var s := HexDigits(x, n);
      HexDigitsSpell(x / 16, n - 1);
      DigitSpells(x % 16);
      assert s[..n - 1] == HexDigits(x / 16, n - 1);
    }
  }

  lemma HexDigitsDetermineNumber(x: nat, y: nat, n: nat)
    requires x < Pow16(n) && y < Pow16(n) && HexDigits(x, n) == HexDigits(y, n)
    ensures x == y
  {
    HexDigitsSpell(x, n);
    HexDigitsSpell(y, n);
  }

  /** Eight digits a word, in order. */
  lemma {:induction false} HexWordsSpell(words: seq<Word>, i: nat)
    requires i < |words|
    ensures Spelled(HexWords(words)[8 * i..8 * (i + 1)]) == words[i] as int
  {
    hide HexDigits, Value;
    var n := |words| - 1;
    var front := HexWords(words[..n]);
    assert HexWords(words)[..8 * n] == front;
    if i == n {
      assert HexWords(words)[8 * n..8 * (n + 1)] == HexDigits(Value(words[n]), 8);
      ValueIs(words[n]);
      assert Pow16(8) == 0x1_0000_0000;
      HexDigitsSpell(Value(words[n]), 8);
    } else {
      HexWordsSpell(words[..n], i);
      assert HexWords(words)[8 * i..8 * (i + 1)] == front[8 * i..8 * (i + 1)];
    }
  }

  lemma ValueIs(w: Word)
    ensures Value(w) == w as int && Value(w) < 0x1_0000_0000
  {}

  lemma {:induction false} HexWordsDetermineWords(x: seq<Word>, y: seq<Word>)
    requires HexWords(x) == HexWords(y)
    ensures x == y
  {
    hide HexDigits, Value;
    assert |x| == |y|;
    if |x| > 0 {
      var n := |x| - 1;
      assert HexWords(x)[..8 * n] == HexWords(x[..n]) && HexWords(y)[..8 * n] == HexWords(y[..n]);
      HexWordsDetermineWords(x[..n], y[..n]);
      assert HexWords(x)[8 * n..] == HexDigits(Value(x[n]), 8);
      assert HexWords(y)[8 * n..] == HexDigits(Value(y[n]), 8);
      assert Pow16(8) == 0x1_0000_0000;
      ValueDetermines(x[n], y[n]);
      HexDigitsDetermineNumber(Value(x[n]), Value(y[n]), 8);
      assert x == x[..n] + [x[n]] && y == y[..n] + [y[n]];
    }
  }

  // ---------- the public surface: content hashes ----------

  /** The text form of the digest of a byte string. */
  function ContentHash(message: seq<Byte>): (hash: string)
    ensures |hash| == 71
    ensures forall c :: c in hash ==> '0' <= c <= ':' || 'a' <= c <= 'z'
  {
    hide Digest, HexWords;
    "sha256:" + HexWords(Digest(message))
  }

  /** Equal content hashes are equal digests: the text form hides no difference. */
  lemma ContentHashDeterminesDigest(x: seq<Byte>, y: seq<Byte>)
    ensures ContentHash(x) == ContentHash(y) <==> Digest(x) == Digest(y)
  {
    hide Digest, HexWords;
    if ContentHash(x) == ContentHash(y) {
      assert ContentHash(x)[7..] == HexWords(Digest(x)) && ContentHash(y)[7..] == HexWords(Digest(y));
      HexWordsDetermineWords(Digest(x), Digest(y));
    }
  }

  method BytesHash(bytes: seq<Byte>) returns (hash: string)
    ensures hash == ContentHash(bytes)
  {
    var sha := new Sha256();
    sha.Update(bytes);
    assert [] + bytes == bytes;
    var hex := sha.Finalize();
    hash := "sha256:" + hex;
  }

  class ContentHasher {
    const sha: Sha256

    ghost predicate Valid()
      reads this, sha, sha.state, sha.buffer
    {
      sha.Valid()
    }

    ghost function Fed(): seq<Byte>
      reads this, sha
    {
      sha.message
    }

    constructor ()
      ensures Valid() && fresh(sha) && fresh(sha.state) && fresh(sha.buffer) && Fed() == []
    {
      sha := new Sha256();
    }

    method Update(bytes: seq<Byte>)
      requires Valid()
      modifies sha, sha.state, sha.buffer
      ensures Valid() && Fed() == old(Fed()) + bytes
    {
      sha.Update(bytes);
    }

    method Finish() returns (hash: string)
      requires Valid()
      modifies sha, sha.state, sha.buffer
      ensures hash == ContentHash(old(Fed()))
    {
      var hex := sha.Finalize();
      hash := "sha256:" + hex;
    }
  }

  function Concat(chunks: seq<seq<Byte>>): seq<Byte> {
    if |chunks| == 0 then [] else Concat(chunks[..|chunks| - 1]) + chunks[|chunks| - 1]
  }

  /** However a message is cut into `update` calls, its hash is that of the whole. */
  method HashChunks(chunks: seq<seq<Byte>>) returns (hash: string)
    ensures hash == ContentHash(Concat(chunks))
  {
    var hasher := new ContentHasher();
    for i := 0 to |chunks|
      invariant hasher.Valid() && hasher.Fed() == Concat(chunks[..i])
      invariant fresh(hasher) && fresh(hasher.sha) && fresh(hasher.sha.state) && fresh(hasher.sha.buffer)
    {
      assert chunks[..i + 1][..i] == chunks[..i];
      hasher.Update(chunks[i]);
    }
    assert chunks[..|chunks|] == chunks;
    hash := hasher.Finish();
  }
}
