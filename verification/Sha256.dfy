/**
 SHA-256 as FIPS 180-4 defines it: padding (section 5.1.1), parsing into blocks
 (5.2.1) and the hash computation (6.2.2), with what follows about the padded
 message.  The hasher of `integrity.rs` is proved against this in `Integrity`.
 */
module Sha256Standard {
  newtype Byte = x: int | 0 <= x < 256

  type Word = bv32

  /** A 64-bit unsigned count, which wraps around. */
  newtype u64 = x: int | 0 <= x < 0x1_0000_0000_0000_0000

  const WRAP64: nat := 0x1_0000_0000_0000_0000

  function Wrapped(x: nat): u64 { (x % WRAP64) as u64 }

  // ---------- section 3.2: addition modulo 2^32 ----------

  function Add(x: Word, y: Word): Word { x + y }

  // ---------- section 4.1.2: the six logical functions ----------

  function Ch(x: Word, y: Word, z: Word): Word { (x & y) ^ (!x & z) }
  function Maj(x: Word, y: Word, z: Word): Word { (x & y) ^ (x & z) ^ (y & z) }
  function BigSigma0(x: Word): Word { x.RotateRight(2) ^ x.RotateRight(13) ^ x.RotateRight(22) }
  function BigSigma1(x: Word): Word { x.RotateRight(6) ^ x.RotateRight(11) ^ x.RotateRight(25) }
  function SmallSigma0(x: Word): Word { x.RotateRight(7) ^ x.RotateRight(18) ^ (x >> 3) }
  function SmallSigma1(x: Word): Word { x.RotateRight(17) ^ x.RotateRight(19) ^ (x >> 10) }

  // ---------- section 4.2.2: the constants, and 5.3.3: the initial value ----------

  /** Row `r` of the table of constants, eight words a row. */
  function KRow(r: nat): (row: seq<Word>)
    requires r < 8
    ensures |row| == 8
  {
    match r
    case 0 => [0x428a2f98, 0x71374491, 0xb5c0fbcf, 0xe9b5dba5, 0x3956c25b, 0x59f111f1, 0x923f82a4, 0xab1c5ed5]
    case 1 => [0xd807aa98, 0x12835b01, 0x243185be, 0x550c7dc3, 0x72be5d74, 0x80deb1fe, 0x9bdc06a7, 0xc19bf174]
    case 2 => [0xe49b69c1, 0xefbe4786, 0x0fc19dc6, 0x240ca1cc, 0x2de92c6f, 0x4a7484aa, 0x5cb0a9dc, 0x76f988da]
    case 3 => [0x983e5152, 0xa831c66d, 0xb00327c8, 0xbf597fc7, 0xc6e00bf3, 0xd5a79147, 0x06ca6351, 0x14292967]
    case 4 => [0x27b70a85, 0x2e1b2138, 0x4d2c6dfc, 0x53380d13, 0x650a7354, 0x766a0abb, 0x81c2c92e, 0x92722c85]
    case 5 => [0xa2bfe8a1, 0xa81a664b, 0xc24b8b70, 0xc76c51a3, 0xd192e819, 0xd6990624, 0xf40e3585, 0x106aa070]
    case 6 => [0x19a4c116, 0x1e376c08, 0x2748774c, 0x34b0bcb5, 0x391c0cb3, 0x4ed8aa4a, 0x5b9cca4f, 0x682e6ff3]
    case _ => [0x748f82ee, 0x78a5636f, 0x84c87814, 0x8cc70208, 0x90befffa, 0xa4506ceb, 0xbef9a3f7, 0xc67178f2]
  }

  function K(t: nat): Word
    requires t < 64
  {
    KRow(t / 8)[t % 8]
  }

  function H0(): (hash: seq<Word>)
    ensures |hash| == 8
  {
    [0x6a09e667, 0xbb67ae85, 0x3c6ef372, 0xa54ff53a, 0x510e527f, 0x9b05688c, 0x1f83d9ab, 0x5be0cd19]
  }

  // ---------- section 5.1.1: padding ----------

  /** `k` zero bytes are appended after the 0x80 byte: the standard's smallest
      solution of `l + 1 + k = 448 (mod 512)`, counted in bytes. */
  ghost predicate IsZeroByteCount(length: nat, k: nat) {
    Reaches448(length, k) && forall j: nat :: j < k ==> !Reaches448(length, j)
  }

  predicate Reaches448(length: nat, k: nat) {
    (length + 1 + k) % 64 == 56
  }

  function ZeroByteCount(length: nat): (k: nat)
    ensures IsZeroByteCount(length, k)
  {
    (55 - length) % 64
  }

  function Zeros(n: nat): (z: seq<Byte>)
    ensures |z| == n
  {
    seq(n, _ => 0)
  }

  /** The `n` low-order bytes of a number, most significant first. */
  function BigEndian(x: nat, n: nat): (b: seq<Byte>)
    ensures |b| == n
    decreases n
  {
    if n == 0 then [] else BigEndian(x / 256, n - 1) + [(x % 256) as Byte]
  }

  /** What is appended to a message of `length` bytes. */
  function Padding(length: nat): (p: seq<Byte>)
    ensures |p| > 0 && (length + |p|) % 64 == 0
  {
    hide BigEndian, Wrapped, Zeros, ZeroByteCount;
    var k := ZeroByteCount(length);
    assert Reaches448(length, k);
    [0x80] + Zeros(k) + BigEndian(Wrapped(8 * length) as nat, 8)
  }

  /** The padded message.  The standard defines it for fewer than 2^61 bytes; beyond
      that the program's 64-bit counter wraps around, and so does the length here. */
  function Pad(message: seq<Byte>): (p: seq<Byte>)
    ensures |p| % 64 == 0
  {
    message + Padding(|message|)
  }

  function Number(bytes: seq<Byte>): (x: nat)
  {
    if |bytes| == 0 then 0 else 256 * Number(bytes[..|bytes| - 1]) + bytes[|bytes| - 1] as nat
  }

  function Pow256(n: nat): (p: nat)
    ensures p > 0
  {
    if n == 0 then 1 else 256 * Pow256(n - 1)
  }

  /** The length field holds the number it encodes, so the padding ends with the
      message length in bits. */
  lemma {:induction false} BigEndianHoldsNumber(x: nat, n: nat)
    requires x < Pow256(n)
    ensures Number(BigEndian(x, n)) == x
  {
    if n > 0 {
      BigEndianHoldsNumber(x / 256, n - 1);
      var b := BigEndian(x, n);
      assert b[..n - 1] == BigEndian(x / 256, n - 1);
    }
  }

  lemma {:induction false} NumberDeterminesBytes(b: seq<Byte>)
    ensures Number(b) < Pow256(|b|) && BigEndian(Number(b), |b|) == b
    decreases |b|
  {
    if b != [] {
      var front, last := b[..|b| - 1], b[|b| - 1] as nat;
      NumberDeterminesBytes(front);
      assert Number(b) == 256 * Number(front) + last;
      assert Number(b) / 256 == Number(front) && Number(b) % 256 == last;
      assert b == front + [b[|b| - 1]];
    }
  }

  /** A message as section 5.1.1 pads it: a one bit, the fewest zeros that fill whole blocks,
      and the length in bits as a 64-bit number. */
  ghost predicate IsPadded(message: seq<Byte>, p: seq<Byte>) {
    var n := |message|;
    && |p| % 64 == 0 && n + 9 <= |p| < n + 9 + 64
    && p[..n] == message && p[n] == 0x80
    && (forall i :: n < i < |p| - 8 ==> p[i] == 0)
    && Number(p[|p| - 8..]) == 8 * n
  }

  /** The padding is the standard's, and nothing else is. */
  lemma PadIsStandard(message: seq<Byte>, p: seq<Byte>)
    requires 8 * |message| < WRAP64
    ensures IsPadded(message, p) <==> p == Pad(message)
  {
    hide BigEndian, Number;
    PadIsPadded(message);
    if IsPadded(message, p) { PaddedIsUnique(message, p, Pad(message)); }
  }

  lemma PadIsPadded(message: seq<Byte>)
    requires 8 * |message| < WRAP64
    ensures IsPadded(message, Pad(message))
  {
    hide BigEndian, Number;
    var p := Pad(message);
    assert p[|p| - 8..] == BigEndian(8 * |message|, 8);
    assert Wrapped(8 * |message|) as nat == 8 * |message|;
    assert Pow256(8) == WRAP64;
    BigEndianHoldsNumber(8 * |message|, 8);
  }

  lemma PaddedIsUnique(message: seq<Byte>, p: seq<Byte>, q: seq<Byte>)
    requires IsPadded(message, p) && IsPadded(message, q)
    ensures p == q
  {
    hide BigEndian, Number;
    var n := |message|;
    assert |p| == |q|;
    NumberDeterminesBytes(p[|p| - 8..]);
    NumberDeterminesBytes(q[|q| - 8..]);
    forall i | 0 <= i < |p| ensures p[i] == q[i] {
      if i < n {
        assert p[i] == p[..n][i] && q[i] == q[..n][i];
      } else if i >= |p| - 8 {
        assert p[i] == p[|p| - 8..][i - (|p| - 8)] && q[i] == q[|q| - 8..][i - (|q| - 8)];
      }
    }
  }

  // ---------- section 6.2.2: the hash computation ----------

  /** Section 5.2.1: word `t` of a block, most significant byte first. */
  function WordAt(block: seq<Byte>, t: nat): Word
    requires |block| == 64 && t < 16
  {
    (block[4 * t] as Word << 24) | (block[4 * t + 1] as Word << 16) | (block[4 * t + 2] as Word << 8)
    | block[4 * t + 3] as Word
  }

  /** Step 1: the message schedule. */
  function W(block: seq<Byte>, t: nat): Word
    requires |block| == 64
  {
    if t < 16 then WordAt(block, t)
    else Add(Add(Add(SmallSigma1(W(block, t - 2)), W(block, t - 7)), SmallSigma0(W(block, t - 15))), W(block, t - 16))
  }

  datatype Working = Working(a: Word, b: Word, c: Word, d: Word, e: Word, f: Word, g: Word, h: Word)

  /** One round of step 3. */
  function Round(v: Working, k: Word, w: Word): Working {
    var t1 := Add(Add(Add(Add(v.h, BigSigma1(v.e)), Ch(v.e, v.f, v.g)), k), w);
    var t2 := Add(BigSigma0(v.a), Maj(v.a, v.b, v.c));
    Working(Add(t1, t2), v.a, v.b, v.c, Add(v.d, t1), v.e, v.f, v.g)
  }

  /** Step 3: the working variables after `t` rounds. */
  function Rounds(start: Working, block: seq<Byte>, t: nat): Working
    requires |block| == 64 && t <= 64
  {
    if t == 0 then start else Round(Rounds(start, block, t - 1), K(t - 1), W(block, t - 1))
  }

  function Words(v: Working): (words: seq<Word>)
    ensures |words| == 8
  {
    [v.a, v.b, v.c, v.d, v.e, v.f, v.g, v.h]
  }

  function Variables(hash: seq<Word>): Working
    requires |hash| == 8
  {
    Working(hash[0], hash[1], hash[2], hash[3], hash[4], hash[5], hash[6], hash[7])
  }

  function AddWords(x: seq<Word>, y: seq<Word>): (sum: seq<Word>)
    requires |x| == |y|
    ensures |sum| == |x|
  {
    seq(|x|, i requires 0 <= i < |x| => Add(x[i], y[i]))
  }

  /** Steps 2 to 4 for one block. */
  function CompressBlock(hash: seq<Word>, block: seq<Byte>): (next: seq<Word>)
    requires |hash| == 8 && |block| == 64
    ensures |next| == 8
  {
    AddWords(hash, Words(Rounds(Variables(hash), block, 64)))
  }

  /** The hash value H(n), after the first `n` blocks of `data`. */
  function HashAfter(data: seq<Byte>, n: nat): (hash: seq<Word>)
    requires 64 * n <= |data|
    ensures |hash| == 8
  {
    hide CompressBlock;
    if n == 0 then H0() else CompressBlock(HashAfter(data, n - 1), data[64 * (n - 1)..64 * n])
  }

  /** SHA-256 of a message. */
  function Digest(message: seq<Byte>): (words: seq<Word>)
    ensures |words| == 8
  {
    HashAfter(Pad(message), |Pad(message)| / 64)
  }

  /** A hash value depends on the blocks read so far and on nothing behind them. */
  lemma {:induction false} HashAfterPrefix(data: seq<Byte>, more: seq<Byte>, n: nat)
    requires 64 * n <= |data|
    ensures HashAfter(data, n) == HashAfter(data + more, n)
  {
    hide CompressBlock;
    if n > 0 {
      HashAfterPrefix(data, more, n - 1);
      assert (data + more)[64 * (n - 1)..64 * n] == data[64 * (n - 1)..64 * n];
    }
  }

  /** Where the padding of a message with `n` whole blocks falls: in one more block when
      the tail leaves room for the length, else in two. */
  lemma PadLayout(message: seq<Byte>, n: nat)
    requires 64 * n <= |message| < 64 * (n + 1)
    ensures
      var tail, length := message[64 * n..], BigEndian(Wrapped(8 * |message|) as nat, 8);
      var p := Pad(message);
      if |tail| < 56
      then |p| == 64 * (n + 1) && p[64 * n..] == tail + [0x80] + Zeros(55 - |tail|) + length
      else |p| == 64 * (n + 2) && p[64 * n..64 * (n + 1)] == tail + [0x80] + Zeros(63 - |tail|)
           && p[64 * (n + 1)..] == Zeros(56) + length
  {
    hide BigEndian, Wrapped;
    var tail, length := message[64 * n..], BigEndian(Wrapped(8 * |message|) as nat, 8);
    var k := ZeroByteCount(|message|);
    assert message == message[..64 * n] + tail;
    assert Pad(message)[64 * n..] == tail + [0x80] + Zeros(k) + length;
    if |tail| < 56 {
      assert k == 55 - |tail|;
    } else {
      assert k == 119 - |tail|;
      assert Zeros(k) == Zeros(63 - |tail|) + Zeros(56);
    }
  }
}
