/**
 The digest of `abc`, computed by the definition step by step: the test vector of
 `integrity.rs` and of FIPS 180-4. It depends on every constant, every rotation and
 the order of all operations.
 */
module Sha256Vector {
  import opened Sha256Standard
  import opened Sha256Constants

  const ABC: seq<Byte> := [0x61, 0x62, 0x63]

  /** The one block of the padded message. */
  function Block(): (block: seq<Byte>)
    ensures |block| == 64
  {
    ABC + [0x80] + Zeros(52) + BigEndian(24, 8)
  }

  function Start(): Working { Variables(H0()) }

  // ---------- one step at a time ----------

  /** The next word of the schedule, from the four it is made of. */
  lemma NextWord(block: seq<Byte>, t: nat, w2: Word, w7: Word, w15: Word, w16: Word, w: Word)
    requires |block| == 64 && t >= 16 && W(block, t - 2) == w2 && W(block, t - 7) == w7
    requires W(block, t - 15) == w15 && W(block, t - 16) == w16
    requires Add(Add(Add(SmallSigma1(w2), w7), SmallSigma0(w15)), w16) == w
    ensures W(block, t) == w
  {
    hide Add, SmallSigma0, SmallSigma1;
  }

  /** The next round, from the words of the state before it. */
  lemma NextRound(block: seq<Byte>, t: nat, k: Word, w: Word, a: Word, b: Word, c: Word, d: Word,
                  e: Word, f: Word, g: Word, h: Word, x: Word, y: Word)
    requires |block| == 64 && t < 64 && Rounds(Start(), block, t) == Working(a, b, c, d, e, f, g, h)
    requires K(t) == k && W(block, t) == w
    requires Round(Working(a, b, c, d, e, f, g, h), k, w) == Working(x, a, b, c, y, e, f, g)
    ensures Rounds(Start(), block, t + 1) == Working(x, a, b, c, y, e, f, g)
  {
    hide Round, W, K, Start;
  }

  // ---------- the schedule ----------

  lemma LastBytes()
    ensures BigEndian(24, 8) == [0, 0, 0, 0, 0, 0, 0, 24]
  {}

  lemma BlockBytes(block: seq<Byte>)
    requires block == Block()
    ensures block[0] == 0x61 && block[1] == 0x62 && block[2] == 0x63 && block[3] == 0x80 && block[63] == 24
    ensures forall i :: 4 <= i < 63 ==> block[i] == 0
  {
    LastBytes();
  }

  lemma WordOfBytes(block: seq<Byte>, t: nat, a: Byte, b: Byte, c: Byte, d: Byte, w: Word)
    requires |block| == 64 && t < 16
    requires block[4 * t] == a && block[4 * t + 1] == b && block[4 * t + 2] == c && block[4 * t + 3] == d
    requires ((a as Word << 24) | (b as Word << 16) | (c as Word << 8) | d as Word) == w
    ensures W(block, t) == w
  {}

  lemma Words0(block: seq<Byte>)
    requires block == Block()
    ensures W(block, 0) == 0x61626380 && W(block, 15) == 0x00000018
    ensures forall t :: 1 <= t < 15 ==> W(block, t) == 0
  {
    hide W, Block;
    BlockBytes(block);
    WordOfBytes(block, 0, 0x61, 0x62, 0x63, 0x80, 0x61626380);
    WordOfBytes(block, 15, 0, 0, 0, 24, 0x00000018);
    forall t | 1 <= t < 15 ensures W(block, t) == 0 {
      WordOfBytes(block, t, 0, 0, 0, 0, 0);
    }
  }

  lemma Words16(block: seq<Byte>)
    requires block == Block()
    ensures W(block, 16) == 0x61626380 && W(block, 17) == 0x000f0000
    ensures W(block, 18) == 0x7da86405 && W(block, 19) == 0x600003c6
    ensures W(block, 20) == 0x3e9d7b78 && W(block, 21) == 0x0183fc00
    ensures W(block, 22) == 0x12dcbfdb && W(block, 23) == 0xe2e2c38e
    ensures W(block, 24) == 0xc8215c1a && W(block, 25) == 0xb73679a2
    ensures W(block, 26) == 0xe5bc3909 && W(block, 27) == 0x32663c5b
    ensures W(block, 28) == 0x9d209d67 && W(block, 29) == 0xec8726cb
    ensures W(block, 30) == 0x702138a4 && W(block, 31) == 0xd3b7973b
  {
    hide W, Block;
    Words0(block);
    NextWord(block, 16, 0x00000000, 0x00000000, 0x00000000, 0x61626380, 0x61626380);
    NextWord(block, 17, 0x00000018, 0x00000000, 0x00000000, 0x00000000, 0x000f0000);
    NextWord(block, 18, 0x61626380, 0x00000000, 0x00000000, 0x00000000, 0x7da86405);
    NextWord(block, 19, 0x000f0000, 0x00000000, 0x00000000, 0x00000000, 0x600003c6);
    NextWord(block, 20, 0x7da86405, 0x00000000, 0x00000000, 0x00000000, 0x3e9d7b78);
    NextWord(block, 21, 0x600003c6, 0x00000000, 0x00000000, 0x00000000, 0x0183fc00);
    NextWord(block, 22, 0x3e9d7b78, 0x00000018, 0x00000000, 0x00000000, 0x12dcbfdb);
    NextWord(block, 23, 0x0183fc00, 0x61626380, 0x00000000, 0x00000000, 0xe2e2c38e);
    NextWord(block, 24, 0x12dcbfdb, 0x000f0000, 0x00000000, 0x00000000, 0xc8215c1a);
    NextWord(block, 25, 0xe2e2c38e, 0x7da86405, 0x00000000, 0x00000000, 0xb73679a2);
    NextWord(block, 26, 0xc8215c1a, 0x600003c6, 0x00000000, 0x00000000, 0xe5bc3909);
    NextWord(block, 27, 0xb73679a2, 0x3e9d7b78, 0x00000000, 0x00000000, 0x32663c5b);
    NextWord(block, 28, 0xe5bc3909, 0x0183fc00, 0x00000000, 0x00000000, 0x9d209d67);
    NextWord(block, 29, 0x32663c5b, 0x12dcbfdb, 0x00000000, 0x00000000, 0xec8726cb);
    NextWord(block, 30, 0x9d209d67, 0xe2e2c38e, 0x00000018, 0x00000000, 0x702138a4);
    NextWord(block, 31, 0xec8726cb, 0xc8215c1a, 0x61626380, 0x00000018, 0xd3b7973b);
  }

  lemma Words32(block: seq<Byte>)
    requires block == Block()
    ensures W(block, 32) == 0x93f5997f && W(block, 33) == 0x3b68ba73
    ensures W(block, 34) == 0xaff4ffc1 && W(block, 35) == 0xf10a5c62
    ensures W(block, 36) == 0x0a8b3996 && W(block, 37) == 0x72af830a
    ensures W(block, 38) == 0x9409e33e && W(block, 39) == 0x24641522
    ensures W(block, 40) == 0x9f47bf94 && W(block, 41) == 0xf0a64f5a
    ensures W(block, 42) == 0x3e246a79 && W(block, 43) == 0x27333ba3
    ensures W(block, 44) == 0x0c4763f2 && W(block, 45) == 0x840abf27
    ensures W(block, 46) == 0x7a290d5d && W(block, 47) == 0x065c43da
  {
    hide W, Block;
    Words16(block);
    NextWord(block, 32, 0x702138a4, 0xb73679a2, 0x000f0000, 0x61626380, 0x93f5997f);
    NextWord(block, 33, 0xd3b7973b, 0xe5bc3909, 0x7da86405, 0x000f0000, 0x3b68ba73);
    NextWord(block, 34, 0x93f5997f, 0x32663c5b, 0x600003c6, 0x7da86405, 0xaff4ffc1);
    NextWord(block, 35, 0x3b68ba73, 0x9d209d67, 0x3e9d7b78, 0x600003c6, 0xf10a5c62);
    NextWord(block, 36, 0xaff4ffc1, 0xec8726cb, 0x0183fc00, 0x3e9d7b78, 0x0a8b3996);
    NextWord(block, 37, 0xf10a5c62, 0x702138a4, 0x12dcbfdb, 0x0183fc00, 0x72af830a);
    NextWord(block, 38, 0x0a8b3996, 0xd3b7973b, 0xe2e2c38e, 0x12dcbfdb, 0x9409e33e);
    NextWord(block, 39, 0x72af830a, 0x93f5997f, 0xc8215c1a, 0xe2e2c38e, 0x24641522);
    NextWord(block, 40, 0x9409e33e, 0x3b68ba73, 0xb73679a2, 0xc8215c1a, 0x9f47bf94);
    NextWord(block, 41, 0x24641522, 0xaff4ffc1, 0xe5bc3909, 0xb73679a2, 0xf0a64f5a);
    NextWord(block, 42, 0x9f47bf94, 0xf10a5c62, 0x32663c5b, 0xe5bc3909, 0x3e246a79);
    NextWord(block, 43, 0xf0a64f5a, 0x0a8b3996, 0x9d209d67, 0x32663c5b, 0x27333ba3);
    NextWord(block, 44, 0x3e246a79, 0x72af830a, 0xec8726cb, 0x9d209d67, 0x0c4763f2);
    NextWord(block, 45, 0x27333ba3, 0x9409e33e, 0x702138a4, 0xec8726cb, 0x840abf27);
    NextWord(block, 46, 0x0c4763f2, 0x24641522, 0xd3b7973b, 0x702138a4, 0x7a290d5d);
    NextWord(block, 47, 0x840abf27, 0x9f47bf94, 0x93f5997f, 0xd3b7973b, 0x065c43da);
  }

  lemma Words48(block: seq<Byte>)
    requires block == Block()
    ensures W(block, 48) == 0xfb3e89cb && W(block, 49) == 0xcc7617db
    ensures W(block, 50) == 0xb9e66c34 && W(block, 51) == 0xa9993667
    ensures W(block, 52) == 0x84badedd && W(block, 53) == 0xc21462bc
    ensures W(block, 54) == 0x1487472c && W(block, 55) == 0xb20f7a99
    ensures W(block, 56) == 0xef57b9cd && W(block, 57) == 0xebe6b238
    ensures W(block, 58) == 0x9fe3095e && W(block, 59) == 0x78bc8d4b
    ensures W(block, 60) == 0xa43fcf15 && W(block, 61) == 0x668b2ff8
    ensures W(block, 62) == 0xeeaba2cc && W(block, 63) == 0x12b1edeb
  {
    hide W, Block;
    Words32(block);
    NextWord(block, 48, 0x7a290d5d, 0xf0a64f5a, 0x3b68ba73, 0x93f5997f, 0xfb3e89cb);
    NextWord(block, 49, 0x065c43da, 0x3e246a79, 0xaff4ffc1, 0x3b68ba73, 0xcc7617db);
    NextWord(block, 50, 0xfb3e89cb, 0x27333ba3, 0xf10a5c62, 0xaff4ffc1, 0xb9e66c34);
    NextWord(block, 51, 0xcc7617db, 0x0c4763f2, 0x0a8b3996, 0xf10a5c62, 0xa9993667);
    NextWord(block, 52, 0xb9e66c34, 0x840abf27, 0x72af830a, 0x0a8b3996, 0x84badedd);
    NextWord(block, 53, 0xa9993667, 0x7a290d5d, 0x9409e33e, 0x72af830a, 0xc21462bc);
    NextWord(block, 54, 0x84badedd, 0x065c43da, 0x24641522, 0x9409e33e, 0x1487472c);
    NextWord(block, 55, 0xc21462bc, 0xfb3e89cb, 0x9f47bf94, 0x24641522, 0xb20f7a99);
    NextWord(block, 56, 0x1487472c, 0xcc7617db, 0xf0a64f5a, 0x9f47bf94, 0xef57b9cd);
    NextWord(block, 57, 0xb20f7a99, 0xb9e66c34, 0x3e246a79, 0xf0a64f5a, 0xebe6b238);
    NextWord(block, 58, 0xef57b9cd, 0xa9993667, 0x27333ba3, 0x3e246a79, 0x9fe3095e);
    NextWord(block, 59, 0xebe6b238, 0x84badedd, 0x0c4763f2, 0x27333ba3, 0x78bc8d4b);
    NextWord(block, 60, 0x9fe3095e, 0xc21462bc, 0x840abf27, 0x0c4763f2, 0xa43fcf15);
    NextWord(block, 61, 0x78bc8d4b, 0x1487472c, 0x7a290d5d, 0x840abf27, 0x668b2ff8);
    NextWord(block, 62, 0xa43fcf15, 0xb20f7a99, 0x065c43da, 0x7a290d5d, 0xeeaba2cc);
    NextWord(block, 63, 0x668b2ff8, 0xef57b9cd, 0xfb3e89cb, 0x065c43da, 0x12b1edeb);
  }

  // ---------- the rounds ----------

  lemma StartWords(block: seq<Byte>)
    requires block == Block()
    ensures Rounds(Start(), block, 0) ==
            Working(0x6a09e667, 0xbb67ae85, 0x3c6ef372, 0xa54ff53a, 0x510e527f, 0x9b05688c, 0x1f83d9ab, 0x5be0cd19)
  {
    hide Block;
  }

  lemma Rounds8(block: seq<Byte>)
    requires block == Block()
    ensures Rounds(Start(), block, 8) ==
            Working(0x85a07b5f, 0xe5030380, 0x2b4209f5, 0x04409a6a, 0x0c657a79, 0x9b27a401, 0x714260ad, 0x43ada245)
  {
    hide W, Block, Start, Rounds, K;
    Table0();
    Words0(block);
    StartWords(block);
    NextRound(block, 0, 0x428a2f98, 0x61626380, 0x6a09e667, 0xbb67ae85, 0x3c6ef372, 0xa54ff53a,
              0x510e527f, 0x9b05688c, 0x1f83d9ab, 0x5be0cd19, 0x5d6aebcd, 0xfa2a4622);
    NextRound(block, 1, 0x71374491, 0x00000000, 0x5d6aebcd, 0x6a09e667, 0xbb67ae85, 0x3c6ef372,
              0xfa2a4622, 0x510e527f, 0x9b05688c, 0x1f83d9ab, 0x5a6ad9ad, 0x78ce7989);
    NextRound(block, 2, 0xb5c0fbcf, 0x00000000, 0x5a6ad9ad, 0x5d6aebcd, 0x6a09e667, 0xbb67ae85,
              0x78ce7989, 0xfa2a4622, 0x510e527f, 0x9b05688c, 0xc8c347a7, 0xf92939eb);
    NextRound(block, 3, 0xe9b5dba5, 0x00000000, 0xc8c347a7, 0x5a6ad9ad, 0x5d6aebcd, 0x6a09e667,
              0xf92939eb, 0x78ce7989, 0xfa2a4622, 0x510e527f, 0xd550f666, 0x24e00850);
    NextRound(block, 4, 0x3956c25b, 0x00000000, 0xd550f666, 0xc8c347a7, 0x5a6ad9ad, 0x5d6aebcd,
              0x24e00850, 0xf92939eb, 0x78ce7989, 0xfa2a4622, 0x04409a6a, 0x43ada245);
    NextRound(block, 5, 0x59f111f1, 0x00000000, 0x04409a6a, 0xd550f666, 0xc8c347a7, 0x5a6ad9ad,
              0x43ada245, 0x24e00850, 0xf92939eb, 0x78ce7989, 0x2b4209f5, 0x714260ad);
    NextRound(block, 6, 0x923f82a4, 0x00000000, 0x2b4209f5, 0x04409a6a, 0xd550f666, 0xc8c347a7,
              0x714260ad, 0x43ada245, 0x24e00850, 0xf92939eb, 0xe5030380, 0x9b27a401);
    NextRound(block, 7, 0xab1c5ed5, 0x00000000, 0xe5030380, 0x2b4209f5, 0x04409a6a, 0xd550f666,
              0x9b27a401, 0x714260ad, 0x43ada245, 0x24e00850, 0x85a07b5f, 0x0c657a79);
  }

  lemma Rounds16(block: seq<Byte>)
    requires block == Block()
    ensures Rounds(Start(), block, 16) ==
            Working(0xb0fa238e, 0xc0645fde, 0xd932eb16, 0x87912990, 0x07590dcd, 0x0b92f20c, 0x745a48de, 0x1e578218)
  {
    hide W, Block, Start, Rounds, K;
    Table1();
    Words0(block);
    Rounds8(block);
    NextRound(block, 8, 0xd807aa98, 0x00000000, 0x85a07b5f, 0xe5030380, 0x2b4209f5, 0x04409a6a,
              0x0c657a79, 0x9b27a401, 0x714260ad, 0x43ada245, 0x8e04ecb9, 0x32ca2d8c);
    NextRound(block, 9, 0x12835b01, 0x00000000, 0x8e04ecb9, 0x85a07b5f, 0xe5030380, 0x2b4209f5,
              0x32ca2d8c, 0x0c657a79, 0x9b27a401, 0x714260ad, 0x8c87346b, 0x1cc92596);
    NextRound(block, 10, 0x243185be, 0x00000000, 0x8c87346b, 0x8e04ecb9, 0x85a07b5f, 0xe5030380,
              0x1cc92596, 0x32ca2d8c, 0x0c657a79, 0x9b27a401, 0x4798a3f4, 0x436b23e8);
    NextRound(block, 11, 0x550c7dc3, 0x00000000, 0x4798a3f4, 0x8c87346b, 0x8e04ecb9, 0x85a07b5f,
              0x436b23e8, 0x1cc92596, 0x32ca2d8c, 0x0c657a79, 0xf71fc5a9, 0x816fd6e9);
    NextRound(block, 12, 0x72be5d74, 0x00000000, 0xf71fc5a9, 0x4798a3f4, 0x8c87346b, 0x8e04ecb9,
              0x816fd6e9, 0x436b23e8, 0x1cc92596, 0x32ca2d8c, 0x87912990, 0x1e578218);
    NextRound(block, 13, 0x80deb1fe, 0x00000000, 0x87912990, 0xf71fc5a9, 0x4798a3f4, 0x8c87346b,
              0x1e578218, 0x816fd6e9, 0x436b23e8, 0x1cc92596, 0xd932eb16, 0x745a48de);
    NextRound(block, 14, 0x9bdc06a7, 0x00000000, 0xd932eb16, 0x87912990, 0xf71fc5a9, 0x4798a3f4,
              0x745a48de, 0x1e578218, 0x816fd6e9, 0x436b23e8, 0xc0645fde, 0x0b92f20c);
    NextRound(block, 15, 0xc19bf174, 0x00000018, 0xc0645fde, 0xd932eb16, 0x87912990, 0xf71fc5a9,
              0x0b92f20c, 0x745a48de, 0x1e578218, 0x816fd6e9, 0xb0fa238e, 0x07590dcd);
  }

  lemma Rounds24(block: seq<Byte>)
    requires block == Block()
    ensures Rounds(Start(), block, 24) ==
            Working(0xc5d53d8d, 0xa7a3623f, 0xc2606d6d, 0x9dc68b63, 0xaa47c347, 0x49f5114a, 0xe1257970, 0x8ada8930)
  {
    hide W, Block, Start, Rounds, K;
    Table2();
    Words16(block);
    Rounds16(block);
    NextRound(block, 16, 0xe49b69c1, 0x61626380, 0xb0fa238e, 0xc0645fde, 0xd932eb16, 0x87912990,
              0x07590dcd, 0x0b92f20c, 0x745a48de, 0x1e578218, 0x21da9a9b, 0x8034229c);
    NextRound(block, 17, 0xefbe4786, 0x000f0000, 0x21da9a9b, 0xb0fa238e, 0xc0645fde, 0xd932eb16,
              0x8034229c, 0x07590dcd, 0x0b92f20c, 0x745a48de, 0xc2fbd9d1, 0x846ee454);
    NextRound(block, 18, 0x0fc19dc6, 0x7da86405, 0xc2fbd9d1, 0x21da9a9b, 0xb0fa238e, 0xc0645fde,
              0x846ee454, 0x8034229c, 0x07590dcd, 0x0b92f20c, 0xfe777bbf, 0xcc899961);
    NextRound(block, 19, 0x240ca1cc, 0x600003c6, 0xfe777bbf, 0xc2fbd9d1, 0x21da9a9b, 0xb0fa238e,
              0xcc899961, 0x846ee454, 0x8034229c, 0x07590dcd, 0xe1f20c33, 0xb0638179);
    NextRound(block, 20, 0x2de92c6f, 0x3e9d7b78, 0xe1f20c33, 0xfe777bbf, 0xc2fbd9d1, 0x21da9a9b,
              0xb0638179, 0xcc899961, 0x846ee454, 0x8034229c, 0x9dc68b63, 0x8ada8930);
    NextRound(block, 21, 0x4a7484aa, 0x0183fc00, 0x9dc68b63, 0xe1f20c33, 0xfe777bbf, 0xc2fbd9d1,
              0x8ada8930, 0xb0638179, 0xcc899961, 0x846ee454, 0xc2606d6d, 0xe1257970);
    NextRound(block, 22, 0x5cb0a9dc, 0x12dcbfdb, 0xc2606d6d, 0x9dc68b63, 0xe1f20c33, 0xfe777bbf,
              0xe1257970, 0x8ada8930, 0xb0638179, 0xcc899961, 0xa7a3623f, 0x49f5114a);
    NextRound(block, 23, 0x76f988da, 0xe2e2c38e, 0xa7a3623f, 0xc2606d6d, 0x9dc68b63, 0xe1f20c33,
              0x49f5114a, 0xe1257970, 0x8ada8930, 0xb0638179, 0xc5d53d8d, 0xaa47c347);
  }

  lemma Rounds32(block: seq<Byte>)
    requires block == Block()
    ensures Rounds(Start(), block, 32) ==
            Working(0x73b33bf5, 0xea992a22, 0xa0060b30, 0x363482c9, 0xba591112, 0x0109ab3a, 0xade79437, 0x6112a3b7)
  {
    hide W, Block, Start, Rounds, K;
    Table3();
    Words16(block);
    Rounds24(block);
    NextRound(block, 24, 0x983e5152, 0xc8215c1a, 0xc5d53d8d, 0xa7a3623f, 0xc2606d6d, 0x9dc68b63,
              0xaa47c347, 0x49f5114a, 0xe1257970, 0x8ada8930, 0x1c2c2838, 0x2823ef91);
    NextRound(block, 25, 0xa831c66d, 0xb73679a2, 0x1c2c2838, 0xc5d53d8d, 0xa7a3623f, 0xc2606d6d,
              0x2823ef91, 0xaa47c347, 0x49f5114a, 0xe1257970, 0xcde8037d, 0x14383d8e);
    NextRound(block, 26, 0xb00327c8, 0xe5bc3909, 0xcde8037d, 0x1c2c2838, 0xc5d53d8d, 0xa7a3623f,
              0x14383d8e, 0x2823ef91, 0xaa47c347, 0x49f5114a, 0xb62ec4bc, 0xc74c6516);
    NextRound(block, 27, 0xbf597fc7, 0x32663c5b, 0xb62ec4bc, 0xcde8037d, 0x1c2c2838, 0xc5d53d8d,
              0xc74c6516, 0x14383d8e, 0x2823ef91, 0xaa47c347, 0x77d37528, 0xedffbff8);
    NextRound(block, 28, 0xc6e00bf3, 0x9d209d67, 0x77d37528, 0xb62ec4bc, 0xcde8037d, 0x1c2c2838,
              0xedffbff8, 0xc74c6516, 0x14383d8e, 0x2823ef91, 0x363482c9, 0x6112a3b7);
    NextRound(block, 29, 0xd5a79147, 0xec8726cb, 0x363482c9, 0x77d37528, 0xb62ec4bc, 0xcde8037d,
              0x6112a3b7, 0xedffbff8, 0xc74c6516, 0x14383d8e, 0xa0060b30, 0xade79437);
    NextRound(block, 30, 0x06ca6351, 0x702138a4, 0xa0060b30, 0x363482c9, 0x77d37528, 0xb62ec4bc,
              0xade79437, 0x6112a3b7, 0xedffbff8, 0xc74c6516, 0xea992a22, 0x0109ab3a);
    NextRound(block, 31, 0x14292967, 0xd3b7973b, 0xea992a22, 0xa0060b30, 0x363482c9, 0x77d37528,
              0x0109ab3a, 0xade79437, 0x6112a3b7, 0xedffbff8, 0x73b33bf5, 0xba591112);
  }

  lemma Rounds40(block: seq<Byte>)
    requires block == Block()
    ensures Rounds(Start(), block, 40) ==
            Working(0x79ea687a, 0x6dc57a8a, 0x34df1604, 0x41a65cb1, 0x1efbc0a0, 0xf0781bc8, 0xa507a53d, 0x0772a26b)
  {
    hide W, Block, Start, Rounds, K;
    Table4();
    Words32(block);
    Rounds32(block);
    NextRound(block, 32, 0x27b70a85, 0x93f5997f, 0x73b33bf5, 0xea992a22, 0xa0060b30, 0x363482c9,
              0xba591112, 0x0109ab3a, 0xade79437, 0x6112a3b7, 0x98e12507, 0x9cd9f5f6);
    NextRound(block, 33, 0x2e1b2138, 0x3b68ba73, 0x98e12507, 0x73b33bf5, 0xea992a22, 0xa0060b30,
              0x9cd9f5f6, 0xba591112, 0x0109ab3a, 0xade79437, 0xfe604df5, 0x59249dd3);
    NextRound(block, 34, 0x4d2c6dfc, 0xaff4ffc1, 0xfe604df5, 0x98e12507, 0x73b33bf5, 0xea992a22,
              0x59249dd3, 0x9cd9f5f6, 0xba591112, 0x0109ab3a, 0xa9a7738c, 0x085f3833);
    NextRound(block, 35, 0x53380d13, 0xf10a5c62, 0xa9a7738c, 0xfe604df5, 0x98e12507, 0x73b33bf5,
              0x085f3833, 0x59249dd3, 0x9cd9f5f6, 0xba591112, 0x65a0cfe4, 0xf4b002d6);
    NextRound(block, 36, 0x650a7354, 0x0a8b3996, 0x65a0cfe4, 0xa9a7738c, 0xfe604df5, 0x98e12507,
              0xf4b002d6, 0x085f3833, 0x59249dd3, 0x9cd9f5f6, 0x41a65cb1, 0x0772a26b);
    NextRound(block, 37, 0x766a0abb, 0x72af830a, 0x41a65cb1, 0x65a0cfe4, 0xa9a7738c, 0xfe604df5,
              0x0772a26b, 0xf4b002d6, 0x085f3833, 0x59249dd3, 0x34df1604, 0xa507a53d);
    NextRound(block, 38, 0x81c2c92e, 0x9409e33e, 0x34df1604, 0x41a65cb1, 0x65a0cfe4, 0xa9a7738c,
              0xa507a53d, 0x0772a26b, 0xf4b002d6, 0x085f3833, 0x6dc57a8a, 0xf0781bc8);
    NextRound(block, 39, 0x92722c85, 0x24641522, 0x6dc57a8a, 0x34df1604, 0x41a65cb1, 0x65a0cfe4,
              0xf0781bc8, 0xa507a53d, 0x0772a26b, 0xf4b002d6, 0x79ea687a, 0x1efbc0a0);
  }

  lemma Rounds48(block: seq<Byte>)
    requires block == Block()
    ensures Rounds(Start(), block, 48) ==
            Working(0x4172328d, 0xa14c14b0, 0x72ab4b91, 0x26628815, 0xfecf0bc6, 0xd57b94a9, 0xb7755da1, 0xa80f11f0)
  {
    hide W, Block, Start, Rounds, K;
    Table5();
    Words32(block);
    Rounds40(block);
    NextRound(block, 40, 0xa2bfe8a1, 0x9f47bf94, 0x79ea687a, 0x6dc57a8a, 0x34df1604, 0x41a65cb1,
              0x1efbc0a0, 0xf0781bc8, 0xa507a53d, 0x0772a26b, 0xd6670766, 0x26352d63);
    NextRound(block, 41, 0xa81a664b, 0xf0a64f5a, 0xd6670766, 0x79ea687a, 0x6dc57a8a, 0x34df1604,
              0x26352d63, 0x1efbc0a0, 0xf0781bc8, 0xa507a53d, 0xdf46652f, 0x838b2711);
    NextRound(block, 42, 0xc24b8b70, 0x3e246a79, 0xdf46652f, 0xd6670766, 0x79ea687a, 0x6dc57a8a,
              0x838b2711, 0x26352d63, 0x1efbc0a0, 0xf0781bc8, 0x17aa0dfe, 0xdecd4715);
    NextRound(block, 43, 0xc76c51a3, 0x27333ba3, 0x17aa0dfe, 0xdf46652f, 0xd6670766, 0x79ea687a,
              0xdecd4715, 0x838b2711, 0x26352d63, 0x1efbc0a0, 0x9d4baf93, 0xfda24c2e);
    NextRound(block, 44, 0xd192e819, 0x0c4763f2, 0x9d4baf93, 0x17aa0dfe, 0xdf46652f, 0xd6670766,
              0xfda24c2e, 0xdecd4715, 0x838b2711, 0x26352d63, 0x26628815, 0xa80f11f0);
    NextRound(block, 45, 0xd6990624, 0x840abf27, 0x26628815, 0x9d4baf93, 0x17aa0dfe, 0xdf46652f,
              0xa80f11f0, 0xfda24c2e, 0xdecd4715, 0x838b2711, 0x72ab4b91, 0xb7755da1);
    NextRound(block, 46, 0xf40e3585, 0x7a290d5d, 0x72ab4b91, 0x26628815, 0x9d4baf93, 0x17aa0dfe,
              0xb7755da1, 0xa80f11f0, 0xfda24c2e, 0xdecd4715, 0xa14c14b0, 0xd57b94a9);
    NextRound(block, 47, 0x106aa070, 0x065c43da, 0xa14c14b0, 0x72ab4b91, 0x26628815, 0x9d4baf93,
              0xd57b94a9, 0xb7755da1, 0xa80f11f0, 0xfda24c2e, 0x4172328d, 0xfecf0bc6);
  }

  lemma Rounds56(block: seq<Byte>)
    requires block == Block()
    ensures Rounds(Start(), block, 56) ==
            Working(0x38cc9913, 0x3ec45cdb, 0xf5702fdb, 0x101fd28f, 0x54cb266b, 0xe50e1b4f, 0x9f4787c3, 0x529e7d00)
  {
    hide W, Block, Start, Rounds, K;
    Table6();
    Words48(block);
    Rounds48(block);
    NextRound(block, 48, 0x19a4c116, 0xfb3e89cb, 0x4172328d, 0xa14c14b0, 0x72ab4b91, 0x26628815,
              0xfecf0bc6, 0xd57b94a9, 0xb7755da1, 0xa80f11f0, 0x05757ceb, 0xbd714038);
    NextRound(block, 49, 0x1e376c08, 0xcc7617db, 0x05757ceb, 0x4172328d, 0xa14c14b0, 0x72ab4b91,
              0xbd714038, 0xfecf0bc6, 0xd57b94a9, 0xb7755da1, 0xf11bfaa8, 0x6e5c390c);
    NextRound(block, 50, 0x2748774c, 0xb9e66c34, 0xf11bfaa8, 0x05757ceb, 0x4172328d, 0xa14c14b0,
              0x6e5c390c, 0xbd714038, 0xfecf0bc6, 0xd57b94a9, 0x7a0508a1, 0x52f1ccf7);
    NextRound(block, 51, 0x34b0bcb5, 0xa9993667, 0x7a0508a1, 0xf11bfaa8, 0x05757ceb, 0x4172328d,
              0x52f1ccf7, 0x6e5c390c, 0xbd714038, 0xfecf0bc6, 0x886e7a22, 0x49231c1e);
    NextRound(block, 52, 0x391c0cb3, 0x84badedd, 0x886e7a22, 0x7a0508a1, 0xf11bfaa8, 0x05757ceb,
              0x49231c1e, 0x52f1ccf7, 0x6e5c390c, 0xbd714038, 0x101fd28f, 0x529e7d00);
    NextRound(block, 53, 0x4ed8aa4a, 0xc21462bc, 0x101fd28f, 0x886e7a22, 0x7a0508a1, 0xf11bfaa8,
              0x529e7d00, 0x49231c1e, 0x52f1ccf7, 0x6e5c390c, 0xf5702fdb, 0x9f4787c3);
    NextRound(block, 54, 0x5b9cca4f, 0x1487472c, 0xf5702fdb, 0x101fd28f, 0x886e7a22, 0x7a0508a1,
              0x9f4787c3, 0x529e7d00, 0x49231c1e, 0x52f1ccf7, 0x3ec45cdb, 0xe50e1b4f);
    NextRound(block, 55, 0x682e6ff3, 0xb20f7a99, 0x3ec45cdb, 0xf5702fdb, 0x101fd28f, 0x886e7a22,
              0xe50e1b4f, 0x9f4787c3, 0x529e7d00, 0x49231c1e, 0x38cc9913, 0x54cb266b);
  }

  lemma Rounds64(block: seq<Byte>)
    requires block == Block()
    ensures Rounds(Start(), block, 64) ==
            Working(0x506e3058, 0xd39a2165, 0x04d24d6c, 0xb85e2ce9, 0x5ef50f24, 0xfb121210, 0x948d25b6, 0x961f4894)
  {
    hide W, Block, Start, Rounds, K;
    Table7();
    Words48(block);
    Rounds56(block);
    NextRound(block, 56, 0x748f82ee, 0xef57b9cd, 0x38cc9913, 0x3ec45cdb, 0xf5702fdb, 0x101fd28f,
              0x54cb266b, 0xe50e1b4f, 0x9f4787c3, 0x529e7d00, 0xfcd1887b, 0x9b5e906c);
    NextRound(block, 57, 0x78a5636f, 0xebe6b238, 0xfcd1887b, 0x38cc9913, 0x3ec45cdb, 0xf5702fdb,
              0x9b5e906c, 0x54cb266b, 0xe50e1b4f, 0x9f4787c3, 0xc062d46f, 0x7e44008e);
    NextRound(block, 58, 0x84c87814, 0x9fe3095e, 0xc062d46f, 0xfcd1887b, 0x38cc9913, 0x3ec45cdb,
              0x7e44008e, 0x9b5e906c, 0x54cb266b, 0xe50e1b4f, 0xffb70472, 0x6d83bfc6);
    NextRound(block, 59, 0x8cc70208, 0x78bc8d4b, 0xffb70472, 0xc062d46f, 0xfcd1887b, 0x38cc9913,
              0x6d83bfc6, 0x7e44008e, 0x9b5e906c, 0x54cb266b, 0xb6ae8fff, 0xb21bad3d);
    NextRound(block, 60, 0x90befffa, 0xa43fcf15, 0xb6ae8fff, 0xffb70472, 0xc062d46f, 0xfcd1887b,
              0xb21bad3d, 0x6d83bfc6, 0x7e44008e, 0x9b5e906c, 0xb85e2ce9, 0x961f4894);
    NextRound(block, 61, 0xa4506ceb, 0x668b2ff8, 0xb85e2ce9, 0xb6ae8fff, 0xffb70472, 0xc062d46f,
              0x961f4894, 0xb21bad3d, 0x6d83bfc6, 0x7e44008e, 0x04d24d6c, 0x948d25b6);
    NextRound(block, 62, 0xbef9a3f7, 0xeeaba2cc, 0x04d24d6c, 0xb85e2ce9, 0xb6ae8fff, 0xffb70472,
              0x948d25b6, 0x961f4894, 0xb21bad3d, 0x6d83bfc6, 0xd39a2165, 0xfb121210);
    NextRound(block, 63, 0xc67178f2, 0x12b1edeb, 0xd39a2165, 0x04d24d6c, 0xb85e2ce9, 0xb6ae8fff,
              0xfb121210, 0x948d25b6, 0x961f4894, 0xb21bad3d, 0x506e3058, 0x5ef50f24);
  }

  // ---------- the digest ----------

  lemma PaddedIsBlock()
    ensures Pad(ABC) == Block() && |Pad(ABC)| / 64 == 1
  {
    hide BigEndian, Zeros;
    assert ZeroByteCount(3) == 52 && Wrapped(24) == 24;
  }

  lemma DigestIsOneBlock()
    ensures Digest(ABC) == AddWords(H0(), Words(Rounds(Start(), Block(), 64)))
  {
    hide Rounds, Block, H0, AddWords, Words, Pad;
    PaddedIsBlock();
    assert Pad(ABC)[0..64] == Block();
    assert HashAfter(Pad(ABC), 0) == H0();
    assert HashAfter(Pad(ABC), 1) == CompressBlock(H0(), Block());
  }

  /** The words of the digest of `abc`. */
  lemma DigestOfAbc()
    ensures Digest(ABC) == [0xba7816bf, 0x8f01cfea, 0x414140de, 0x5dae2223,
                            0xb00361a3, 0x96177a9c, 0xb410ff61, 0xf20015ad]
  {
    hide Rounds, Block, Start, Digest;
    DigestIsOneBlock();
    Rounds64(Block());
  }
}
