/** Where the constants of SHA-256 come from: sections 4.2.2 and 5.3.3 of FIPS 180-4. */
module Sha256Constants {
  import opened Sha256Standard

  // ---------- the primes ----------

  ghost predicate IsPrime(n: nat) { n >= 2 && forall d :: 2 <= d < n ==> n % d != 0 }

  /** `p` is a prime with `t` primes below it. */
  ghost predicate IsNthPrime(t: nat, p: nat) {
    IsPrime(p)
    && if t == 0 then forall n: nat :: n < p ==> !IsPrime(n)
       else exists q: nat :: q < p && IsNthPrime(t - 1, q) && NoneBetween(q, p)
  }

  ghost predicate NoneBetween(q: nat, p: nat) { forall n: nat :: q < n < p ==> !IsPrime(n) }

  predicate Passes(n: nat, q: nat)
    requires q > 0
  {
    n % q != 0 || n == q
  }

  /** Not divided by a smaller prime below 19. */
  predicate IsSieved(n: nat) {
    && n >= 2 && Passes(n, 2) && Passes(n, 3) && Passes(n, 5) && Passes(n, 7)
    && Passes(n, 11) && Passes(n, 13) && Passes(n, 17)
  }

  /** Below 19 * 19 that is enough. */
  lemma SieveFindsPrimes(n: nat)
    requires n < 361
    ensures IsPrime(n) <==> IsSieved(n)
  {
    if n >= 2 && IsSieved(n) {
      forall d | 2 <= d < n ensures n % d != 0 {
        if n % d == 0 { SmallFactor(n, d); }
      }
    }
    if IsPrime(n) {
      assert forall d :: 2 <= d < n ==> n % d != 0;
      assert n > 2 ==> n % 2 != 0;
      assert n > 3 ==> n % 3 != 0;
      assert n > 5 ==> n % 5 != 0;
      assert n > 7 ==> n % 7 != 0;
      assert n > 11 ==> n % 11 != 0;
      assert n > 13 ==> n % 13 != 0;
      assert n > 17 ==> n % 17 != 0;
    }
  }

  /** A factor of a small number, or what it leaves, is below 19, and so has a factor the sieve knows. */
  lemma SmallFactor(n: nat, d: nat)
    requires 2 <= d < n < 361 && n % d == 0
    ensures !IsSieved(n)
  {
    var e := n / d;
    assert n == d * e && e >= 2;
    if d >= 19 && e >= 19 {
      Products(d, e);
    }
    if d < 19 { KnownFactor(n, d, e); } else { KnownFactor(n, e, d); }
  }

  lemma Products(d: nat, e: nat)
    requires d >= 19 && e >= 19
    ensures d * e >= 361
  {
    assert d * e >= 19 * e;
  }

  lemma KnownFactor(n: nat, d: nat, e: nat)
    requires n == d * e && 2 <= d < 19 && e >= 2
    ensures !IsSieved(n)
  {
    hide Passes;
    match d
    case 2 => MultipleOf2(n, 1 * e);
    case 3 => MultipleOf3(n, 1 * e);
    case 4 => MultipleOf2(n, 2 * e);
    case 5 => MultipleOf5(n, 1 * e);
    case 6 => MultipleOf2(n, 3 * e);
    case 7 => MultipleOf7(n, 1 * e);
    case 8 => MultipleOf2(n, 4 * e);
    case 9 => MultipleOf3(n, 3 * e);
    case 10 => MultipleOf2(n, 5 * e);
    case 11 => MultipleOf11(n, 1 * e);
    case 12 => MultipleOf2(n, 6 * e);
    case 13 => MultipleOf13(n, 1 * e);
    case 14 => MultipleOf2(n, 7 * e);
    case 15 => MultipleOf3(n, 5 * e);
    case 16 => MultipleOf2(n, 8 * e);
    case 17 => MultipleOf17(n, 1 * e);
    case 18 => MultipleOf2(n, 9 * e);
  }

  lemma MultipleOf2(n: nat, m: nat)
    requires n == 2 * m && m >= 2
    ensures !Passes(n, 2)
  {}

  lemma MultipleOf3(n: nat, m: nat)
    requires n == 3 * m && m >= 2
    ensures !Passes(n, 3)
  {}

  lemma MultipleOf5(n: nat, m: nat)
    requires n == 5 * m && m >= 2
    ensures !Passes(n, 5)
  {}

  lemma MultipleOf7(n: nat, m: nat)
    requires n == 7 * m && m >= 2
    ensures !Passes(n, 7)
  {}

  lemma MultipleOf11(n: nat, m: nat)
    requires n == 11 * m && m >= 2
    ensures !Passes(n, 11)
  {}

  lemma MultipleOf13(n: nat, m: nat)
    requires n == 13 * m && m >= 2
    ensures !Passes(n, 13)
  {}

  lemma MultipleOf17(n: nat, m: nat)
    requires n == 17 * m && m >= 2
    ensures !Passes(n, 17)
  {}

  /** None of the `k` odd numbers before the odd `p` passes. */
  predicate NoneSieved(p: nat, k: nat)
    requires 2 * k <= p
  {
    k == 0 || (!IsSieved(p - 2 * k) && NoneSieved(p, k - 1))
  }

  lemma {:induction false} NotSieved(p: nat, k: nat, n: nat)
    requires 2 * k <= p && NoneSieved(p, k) && p % 2 == 1 && p - 2 * k <= n < p && n > 2
    ensures !IsSieved(n)
    decreases k
  {
    if n % 2 == 1 && p - 2 * k < n {
      assert p - 2 * (k - 1) <= n;
      NotSieved(p, k - 1, n);
    }
  }

  lemma FirstPrime()
    ensures IsNthPrime(0, 2)
  {}

  lemma NextPrime(t: nat, q: nat, p: nat)
    requires IsNthPrime(t, q) && 2 <= q < p < 361 && p % 2 == 1 && (q % 2 == 1 || p == q + 1)
    requires IsSieved(p) && NoneSieved(p, (p - q - 1) / 2)
    ensures IsNthPrime(t + 1, p)
  {
    hide IsPrime, IsSieved, NoneSieved;
    SieveFindsPrimes(p);
    forall n: nat | q < n < p ensures !IsPrime(n) {
      var k := (p - q - 1) / 2;
      if n < p - 2 * k {
        assert n % 2 == 0 && n == 2 * (n / 2);
        EvenIsNotSieved(n);
      } else {
        NotSieved(p, k, n);
      }
      SieveFindsPrimes(n);
    }
    assert NoneBetween(q, p) && IsNthPrime(t + 1 - 1, q);
  }

  lemma EvenIsNotSieved(n: nat)
    requires n % 2 == 0 && n > 2
    ensures !IsSieved(n)
  {}

  // ---------- the roots ----------

  function Square(x: nat): nat { x * x }
  function Cube(x: nat): nat { x * x * x }

  /** The first 32 bits of the fractional part of the square root of a number. */
  ghost predicate IsSquareRootFraction(n: nat, x: nat, whole: nat) {
    && Square(whole) <= n < Square(whole + 1) && x < 0x1_0000_0000
    && Square(whole * 0x1_0000_0000 + x) <= n * 0x1_0000_0000_0000_0000 < Square(whole * 0x1_0000_0000 + x + 1)
  }

  /** ... and of its cube root. */
  ghost predicate IsCubeRootFraction(n: nat, x: nat, whole: nat) {
    && Cube(whole) <= n < Cube(whole + 1) && x < 0x1_0000_0000
    && Cube(whole * 0x1_0000_0000 + x) <= n * 0x1_0000_0000_0000_0000_0000_0000 < Cube(whole * 0x1_0000_0000 + x + 1)
  }

  /** Section 4.2.2: the fractions of the cube roots of the first 64 primes. */
  ghost predicate IsRoundConstant(t: nat, x: Word) {
    exists p, whole :: IsCubeRootOfPrime(t, p, whole, x)
  }

  ghost predicate IsCubeRootOfPrime(t: nat, p: nat, whole: nat, x: Word) {
    IsNthPrime(t, p) && IsCubeRootFraction(p, x as nat, whole)
  }

  /** Section 5.3.3: the fractions of the square roots of the first eight. */
  ghost predicate IsInitialWord(t: nat, x: Word) {
    exists p, whole :: IsSquareRootOfPrime(t, p, whole, x)
  }

  ghost predicate IsSquareRootOfPrime(t: nat, p: nat, whole: nat, x: Word) {
    IsNthPrime(t, p) && IsSquareRootFraction(p, x as nat, whole)
  }

  lemma RoundConstant(t: nat, p: nat, whole: nat, x: Word, value: nat)
    requires IsNthPrime(t, p) && x as nat == value && IsCubeRootFraction(p, value, whole)
    ensures IsRoundConstant(t, x)
  {
    hide IsNthPrime, IsCubeRootFraction;
    assert IsCubeRootOfPrime(t, p, whole, x);
  }

  lemma Table0()
    ensures K(0) == 0x428a2f98 && K(1) == 0x71374491 && K(2) == 0xb5c0fbcf && K(3) == 0xe9b5dba5
    ensures K(4) == 0x3956c25b && K(5) == 0x59f111f1 && K(6) == 0x923f82a4 && K(7) == 0xab1c5ed5
  {}

  lemma Next0()
    ensures IsNthPrime(0, 2) && IsNthPrime(1, 3) && IsNthPrime(2, 5) && IsNthPrime(3, 7)
  {
    hide IsNthPrime;
    FirstPrime();
    NextPrime(0, 2, 3);
    NextPrime(1, 3, 5);
    NextPrime(2, 5, 7);
  }

  lemma Next1()
    requires IsNthPrime(3, 7)
    ensures IsNthPrime(4, 11) && IsNthPrime(5, 13) && IsNthPrime(6, 17) && IsNthPrime(7, 19)
  {
    hide IsNthPrime;
    NextPrime(3, 7, 11);
    NextPrime(4, 11, 13);
    NextPrime(5, 13, 17);
    NextPrime(6, 17, 19);
  }

  lemma Row0()
    ensures IsNthPrime(7, 19)
    ensures forall t :: 0 <= t < 8 ==> IsRoundConstant(t, K(t))
  {
    hide IsNthPrime, IsRoundConstant, K;
    Table0();
    Next0();
    Next1();
    RoundConstant(0, 2, 1, K(0), 0x428a2f98);
    RoundConstant(1, 3, 1, K(1), 0x71374491);
    RoundConstant(2, 5, 1, K(2), 0xb5c0fbcf);
    RoundConstant(3, 7, 1, K(3), 0xe9b5dba5);
    RoundConstant(4, 11, 2, K(4), 0x3956c25b);
    RoundConstant(5, 13, 2, K(5), 0x59f111f1);
    RoundConstant(6, 17, 2, K(6), 0x923f82a4);
    RoundConstant(7, 19, 2, K(7), 0xab1c5ed5);
  }

  lemma Table1()
    ensures K(8) == 0xd807aa98 && K(9) == 0x12835b01 && K(10) == 0x243185be && K(11) == 0x550c7dc3
    ensures K(12) == 0x72be5d74 && K(13) == 0x80deb1fe && K(14) == 0x9bdc06a7 && K(15) == 0xc19bf174
  {}

  lemma Next2()
    requires IsNthPrime(7, 19)
    ensures IsNthPrime(8, 23) && IsNthPrime(9, 29) && IsNthPrime(10, 31) && IsNthPrime(11, 37)
  {
    hide IsNthPrime;
    NextPrime(7, 19, 23);
    NextPrime(8, 23, 29);
    NextPrime(9, 29, 31);
    NextPrime(10, 31, 37);
  }

  lemma Next3()
    requires IsNthPrime(11, 37)
    ensures IsNthPrime(12, 41) && IsNthPrime(13, 43) && IsNthPrime(14, 47) && IsNthPrime(15, 53)
  {
    hide IsNthPrime;
    NextPrime(11, 37, 41);
    NextPrime(12, 41, 43);
    NextPrime(13, 43, 47);
    NextPrime(14, 47, 53);
  }

  lemma Row1()
    requires IsNthPrime(7, 19)
    ensures IsNthPrime(15, 53)
    ensures forall t :: 8 <= t < 16 ==> IsRoundConstant(t, K(t))
  {
    hide IsNthPrime, IsRoundConstant, K;
    Table1();
    Next2();
    Next3();
    RoundConstant(8, 23, 2, K(8), 0xd807aa98);
    RoundConstant(9, 29, 3, K(9), 0x12835b01);
    RoundConstant(10, 31, 3, K(10), 0x243185be);
    RoundConstant(11, 37, 3, K(11), 0x550c7dc3);
    RoundConstant(12, 41, 3, K(12), 0x72be5d74);
    RoundConstant(13, 43, 3, K(13), 0x80deb1fe);
    RoundConstant(14, 47, 3, K(14), 0x9bdc06a7);
    RoundConstant(15, 53, 3, K(15), 0xc19bf174);
  }

  lemma Table2()
    ensures K(16) == 0xe49b69c1 && K(17) == 0xefbe4786 && K(18) == 0x0fc19dc6 && K(19) == 0x240ca1cc
    ensures K(20) == 0x2de92c6f && K(21) == 0x4a7484aa && K(22) == 0x5cb0a9dc && K(23) == 0x76f988da
  {}

  lemma Next4()
    requires IsNthPrime(15, 53)
    ensures IsNthPrime(16, 59) && IsNthPrime(17, 61) && IsNthPrime(18, 67) && IsNthPrime(19, 71)
  {
    hide IsNthPrime;
    NextPrime(15, 53, 59);
    NextPrime(16, 59, 61);
    NextPrime(17, 61, 67);
    NextPrime(18, 67, 71);
  }

  lemma Next5()
    requires IsNthPrime(19, 71)
    ensures IsNthPrime(20, 73) && IsNthPrime(21, 79) && IsNthPrime(22, 83) && IsNthPrime(23, 89)
  {
    hide IsNthPrime;
    NextPrime(19, 71, 73);
    NextPrime(20, 73, 79);
    NextPrime(21, 79, 83);
    NextPrime(22, 83, 89);
  }

  lemma Row2()
    requires IsNthPrime(15, 53)
    ensures IsNthPrime(23, 89)
    ensures forall t :: 16 <= t < 24 ==> IsRoundConstant(t, K(t))
  {
    hide IsNthPrime, IsRoundConstant, K;
    Table2();
    Next4();
    Next5();
    RoundConstant(16, 59, 3, K(16), 0xe49b69c1);
    RoundConstant(17, 61, 3, K(17), 0xefbe4786);
    RoundConstant(18, 67, 4, K(18), 0x0fc19dc6);
    RoundConstant(19, 71, 4, K(19), 0x240ca1cc);
    RoundConstant(20, 73, 4, K(20), 0x2de92c6f);
    RoundConstant(21, 79, 4, K(21), 0x4a7484aa);
    RoundConstant(22, 83, 4, K(22), 0x5cb0a9dc);
    RoundConstant(23, 89, 4, K(23), 0x76f988da);
  }

  lemma Table3()
    ensures K(24) == 0x983e5152 && K(25) == 0xa831c66d && K(26) == 0xb00327c8 && K(27) == 0xbf597fc7
    ensures K(28) == 0xc6e00bf3 && K(29) == 0xd5a79147 && K(30) == 0x06ca6351 && K(31) == 0x14292967
  {}

  lemma Next6()
    requires IsNthPrime(23, 89)
    ensures IsNthPrime(24, 97) && IsNthPrime(25, 101) && IsNthPrime(26, 103) && IsNthPrime(27, 107)
  {
    hide IsNthPrime;
    NextPrime(23, 89, 97);
    NextPrime(24, 97, 101);
    NextPrime(25, 101, 103);
    NextPrime(26, 103, 107);
  }

  lemma Next7()
    requires IsNthPrime(27, 107)
    ensures IsNthPrime(28, 109) && IsNthPrime(29, 113) && IsNthPrime(30, 127) && IsNthPrime(31, 131)
  {
    hide IsNthPrime;
    NextPrime(27, 107, 109);
    NextPrime(28, 109, 113);
    NextPrime(29, 113, 127);
    NextPrime(30, 127, 131);
  }

  lemma Row3()
    requires IsNthPrime(23, 89)
    ensures IsNthPrime(31, 131)
    ensures forall t :: 24 <= t < 32 ==> IsRoundConstant(t, K(t))
  {
    hide IsNthPrime, IsRoundConstant, K;
    Table3();
    Next6();
    Next7();
    RoundConstant(24, 97, 4, K(24), 0x983e5152);
    RoundConstant(25, 101, 4, K(25), 0xa831c66d);
    RoundConstant(26, 103, 4, K(26), 0xb00327c8);
    RoundConstant(27, 107, 4, K(27), 0xbf597fc7);
    RoundConstant(28, 109, 4, K(28), 0xc6e00bf3);
    RoundConstant(29, 113, 4, K(29), 0xd5a79147);
    RoundConstant(30, 127, 5, K(30), 0x06ca6351);
    RoundConstant(31, 131, 5, K(31), 0x14292967);
  }

  lemma Table4()
    ensures K(32) == 0x27b70a85 && K(33) == 0x2e1b2138 && K(34) == 0x4d2c6dfc && K(35) == 0x53380d13
    ensures K(36) == 0x650a7354 && K(37) == 0x766a0abb && K(38) == 0x81c2c92e && K(39) == 0x92722c85
  {}

  lemma Next8()
    requires IsNthPrime(31, 131)
    ensures IsNthPrime(32, 137) && IsNthPrime(33, 139) && IsNthPrime(34, 149) && IsNthPrime(35, 151)
  {
    hide IsNthPrime;
    NextPrime(31, 131, 137);
    NextPrime(32, 137, 139);
    NextPrime(33, 139, 149);
    NextPrime(34, 149, 151);
  }

  lemma Next9()
    requires IsNthPrime(35, 151)
    ensures IsNthPrime(36, 157) && IsNthPrime(37, 163) && IsNthPrime(38, 167) && IsNthPrime(39, 173)
  {
    hide IsNthPrime;
    NextPrime(35, 151, 157);
    NextPrime(36, 157, 163);
    NextPrime(37, 163, 167);
    NextPrime(38, 167, 173);
  }

  lemma Row4()
    requires IsNthPrime(31, 131)
    ensures IsNthPrime(39, 173)
    ensures forall t :: 32 <= t < 40 ==> IsRoundConstant(t, K(t))
  {
    hide IsNthPrime, IsRoundConstant, K;
    Table4();
    Next8();
    Next9();
    RoundConstant(32, 137, 5, K(32), 0x27b70a85);
    RoundConstant(33, 139, 5, K(33), 0x2e1b2138);
    RoundConstant(34, 149, 5, K(34), 0x4d2c6dfc);
    RoundConstant(35, 151, 5, K(35), 0x53380d13);
    RoundConstant(36, 157, 5, K(36), 0x650a7354);
    RoundConstant(37, 163, 5, K(37), 0x766a0abb);
    RoundConstant(38, 167, 5, K(38), 0x81c2c92e);
    RoundConstant(39, 173, 5, K(39), 0x92722c85);
  }

  lemma Table5()
    ensures K(40) == 0xa2bfe8a1 && K(41) == 0xa81a664b && K(42) == 0xc24b8b70 && K(43) == 0xc76c51a3
    ensures K(44) == 0xd192e819 && K(45) == 0xd6990624 && K(46) == 0xf40e3585 && K(47) == 0x106aa070
  {}

  lemma Next10()
    requires IsNthPrime(39, 173)
    ensures IsNthPrime(40, 179) && IsNthPrime(41, 181) && IsNthPrime(42, 191) && IsNthPrime(43, 193)
  {
    hide IsNthPrime;
    NextPrime(39, 173, 179);
    NextPrime(40, 179, 181);
    NextPrime(41, 181, 191);
    NextPrime(42, 191, 193);
  }

  lemma Next11()
    requires IsNthPrime(43, 193)
    ensures IsNthPrime(44, 197) && IsNthPrime(45, 199) && IsNthPrime(46, 211) && IsNthPrime(47, 223)
  {
    hide IsNthPrime;
    NextPrime(43, 193, 197);
    NextPrime(44, 197, 199);
    NextPrime(45, 199, 211);
    NextPrime(46, 211, 223);
  }

  lemma Row5()
    requires IsNthPrime(39, 173)
    ensures IsNthPrime(47, 223)
    ensures forall t :: 40 <= t < 48 ==> IsRoundConstant(t, K(t))
  {
    hide IsNthPrime, IsRoundConstant, K;
    Table5();
    Next10();
    Next11();
    RoundConstant(40, 179, 5, K(40), 0xa2bfe8a1);
    RoundConstant(41, 181, 5, K(41), 0xa81a664b);
    RoundConstant(42, 191, 5, K(42), 0xc24b8b70);
    RoundConstant(43, 193, 5, K(43), 0xc76c51a3);
    RoundConstant(44, 197, 5, K(44), 0xd192e819);
    RoundConstant(45, 199, 5, K(45), 0xd6990624);
    RoundConstant(46, 211, 5, K(46), 0xf40e3585);
    RoundConstant(47, 223, 6, K(47), 0x106aa070);
  }

  lemma Table6()
    ensures K(48) == 0x19a4c116 && K(49) == 0x1e376c08 && K(50) == 0x2748774c && K(51) == 0x34b0bcb5
    ensures K(52) == 0x391c0cb3 && K(53) == 0x4ed8aa4a && K(54) == 0x5b9cca4f && K(55) == 0x682e6ff3
  {}

  lemma Next12()
    requires IsNthPrime(47, 223)
    ensures IsNthPrime(48, 227) && IsNthPrime(49, 229) && IsNthPrime(50, 233) && IsNthPrime(51, 239)
  {
    hide IsNthPrime;
    NextPrime(47, 223, 227);
    NextPrime(48, 227, 229);
    NextPrime(49, 229, 233);
    NextPrime(50, 233, 239);
  }

  lemma Next13()
    requires IsNthPrime(51, 239)
    ensures IsNthPrime(52, 241) && IsNthPrime(53, 251) && IsNthPrime(54, 257) && IsNthPrime(55, 263)
  {
    hide IsNthPrime;
    NextPrime(51, 239, 241);
    NextPrime(52, 241, 251);
    NextPrime(53, 251, 257);
    NextPrime(54, 257, 263);
  }

  lemma Row6()
    requires IsNthPrime(47, 223)
    ensures IsNthPrime(55, 263)
    ensures forall t :: 48 <= t < 56 ==> IsRoundConstant(t, K(t))
  {
    hide IsNthPrime, IsRoundConstant, K;
    Table6();
    Next12();
    Next13();
    RoundConstant(48, 227, 6, K(48), 0x19a4c116);
    RoundConstant(49, 229, 6, K(49), 0x1e376c08);
    RoundConstant(50, 233, 6, K(50), 0x2748774c);
    RoundConstant(51, 239, 6, K(51), 0x34b0bcb5);
    RoundConstant(52, 241, 6, K(52), 0x391c0cb3);
    RoundConstant(53, 251, 6, K(53), 0x4ed8aa4a);
    RoundConstant(54, 257, 6, K(54), 0x5b9cca4f);
    RoundConstant(55, 263, 6, K(55), 0x682e6ff3);
  }

  lemma Table7()
    ensures K(56) == 0x748f82ee && K(57) == 0x78a5636f && K(58) == 0x84c87814 && K(59) == 0x8cc70208
    ensures K(60) == 0x90befffa && K(61) == 0xa4506ceb && K(62) == 0xbef9a3f7 && K(63) == 0xc67178f2
  {}

  lemma Next14()
    requires IsNthPrime(55, 263)
    ensures IsNthPrime(56, 269) && IsNthPrime(57, 271) && IsNthPrime(58, 277) && IsNthPrime(59, 281)
  {
    hide IsNthPrime;
    NextPrime(55, 263, 269);
    NextPrime(56, 269, 271);
    NextPrime(57, 271, 277);
    NextPrime(58, 277, 281);
  }

  lemma Next15()
    requires IsNthPrime(59, 281)
    ensures IsNthPrime(60, 283) && IsNthPrime(61, 293) && IsNthPrime(62, 307) && IsNthPrime(63, 311)
  {
    hide IsNthPrime;
    NextPrime(59, 281, 283);
    NextPrime(60, 283, 293);
    NextPrime(61, 293, 307);
    NextPrime(62, 307, 311);
  }

  lemma Row7()
    requires IsNthPrime(55, 263)
    ensures IsNthPrime(63, 311)
    ensures forall t :: 56 <= t < 64 ==> IsRoundConstant(t, K(t))
  {
    hide IsNthPrime, IsRoundConstant, K;
    Table7();
    Next14();
    Next15();
    RoundConstant(56, 269, 6, K(56), 0x748f82ee);
    RoundConstant(57, 271, 6, K(57), 0x78a5636f);
    RoundConstant(58, 277, 6, K(58), 0x84c87814);
    RoundConstant(59, 281, 6, K(59), 0x8cc70208);
    RoundConstant(60, 283, 6, K(60), 0x90befffa);
    RoundConstant(61, 293, 6, K(61), 0xa4506ceb);
    RoundConstant(62, 307, 6, K(62), 0xbef9a3f7);
    RoundConstant(63, 311, 6, K(63), 0xc67178f2);
  }

  lemma RoundConstants()
    ensures forall t :: 0 <= t < 64 ==> IsRoundConstant(t, K(t))
  {
    hide K, IsNthPrime, IsRoundConstant;
    Row0();
    Row1();
    Row2();
    Row3();
    Row4();
    Row5();
    Row6();
    Row7();
  }

  lemma InitialWord(t: nat, p: nat, whole: nat, x: Word, value: nat)
    requires IsNthPrime(t, p) && x as nat == value && IsSquareRootFraction(p, value, whole)
    ensures IsInitialWord(t, x)
  {
    hide IsNthPrime, IsSquareRootFraction;
    assert IsSquareRootOfPrime(t, p, whole, x);
  }

  lemma InitialWords()
    ensures forall t :: 0 <= t < 8 ==> IsInitialWord(t, H0()[t])
  {
    hide IsNthPrime, IsInitialWord;
    Next0();
    Next1();
    InitialWord(0, 2, 1, H0()[0], 0x6a09e667);
    InitialWord(1, 3, 1, H0()[1], 0xbb67ae85);
    InitialWord(2, 5, 2, H0()[2], 0x3c6ef372);
    InitialWord(3, 7, 2, H0()[3], 0xa54ff53a);
    InitialWord(4, 11, 3, H0()[4], 0x510e527f);
    InitialWord(5, 13, 3, H0()[5], 0x9b05688c);
    InitialWord(6, 17, 4, H0()[6], 0x1f83d9ab);
    InitialWord(7, 19, 4, H0()[7], 0x5be0cd19);
  }
}
