/** What the functions and constants of FIPS 180-4 are, bit by bit and number by number. */
module FipsLaws {
  import opened Bits
  import opened Fips180

  // ---------- words ----------

  ghost predicate Word32(x: nat) { x < 0x1_0000_0000 }

  lemma WordBit(x: nat, t: nat)
    requires Word32(x) && t >= 32
    ensures !BitOf(x, t)
  {
    Pow2Values();
    BelowBit(x, 32, t);
  }

  lemma NotBit(x: nat, t: nat)
    requires Word32(x)
    ensures BitOf(Not(x), t) <==> t < 32 && !BitOf(x, t)
  {
    Pow2Values();
    ComplementBit(x, 32, t);
  }

  lemma ShlOne(x: nat, t: nat)
    ensures BitOf(2 * x % 0x1_0000_0000, t) <==> 0 < t < 32 && BitOf(x, t - 1)
  {
    Pow2Values();
    ModBit(2 * x, 32, t);
    assert 2 * x / 2 == x;
  }

  lemma {:induction false} ShlBit(x: nat, n: nat, t: nat)
    requires Word32(x)
    ensures BitOf(Shl(x, n), t) <==> n <= t < 32 && BitOf(x, t - n)
    decreases n
  {
    if n == 0 {
      if t >= 32 { WordBit(x, t); }
    } else {
      ShlBit(2 * x % 0x1_0000_0000, n - 1, t);
      if n - 1 <= t { ShlOne(x, t - (n - 1)); }
    }
  }

  /** Rotation: bit t comes from place t + n, cyclically. */
  lemma RorBit(x: nat, n: nat, t: nat)
    requires Word32(x) && n <= 32 && t < 32
    ensures BitOf(Ror(x, n), t) <==> BitOf(x, (t + n) % 32)
  {
    EitherBit(Shift(x, n), Shl(x, 32 - n), t);
    ShiftBit(x, n, t);
    ShlBit(x, 32 - n, t);
    if t + n >= 32 {
      WordBit(x, t + n);
      assert (t + n) % 32 == t + n - 32;
    } else {
      assert (t + n) % 32 == t + n;
    }
  }

  ghost predicate Odd(a: bool, b: bool, c: bool) { (a != b) != c }

  lemma Xor3Bit(x: nat, y: nat, z: nat, t: nat)
    ensures BitOf(Xor3(x, y, z), t) <==> Odd(BitOf(x, t), BitOf(y, t), BitOf(z, t))
  {
    XorBit(x, y, t);
    XorBit(Xor(x, y), z, t);
  }

  /** Choice: where x has a one the bit of y, elsewhere that of z. */
  lemma ChBit(x: nat, y: nat, z: nat, t: nat)
    requires Word32(x) && Word32(y) && Word32(z)
    ensures BitOf(Ch(x, y, z), t) <==> if BitOf(x, t) then BitOf(y, t) else BitOf(z, t)
  {
    XorBit(And(x, y), And(Not(x), z), t);
    BothBit(x, y, t);
    BothBit(Not(x), z, t);
    NotBit(x, t);
    if t >= 32 { WordBit(z, t); }
  }

  /** Majority: at least two of the three bits. */
  lemma MajBit(x: nat, y: nat, z: nat, t: nat)
    ensures BitOf(Maj(x, y, z), t) <==> (BitOf(x, t) && BitOf(y, t)) || (BitOf(x, t) && BitOf(z, t)) || (BitOf(y, t) && BitOf(z, t))
  {
    Xor3Bit(And(x, y), And(x, z), And(y, z), t);
    BothBit(x, y, t);
    BothBit(x, z, t);
    BothBit(y, z, t);
  }

  lemma Sum0Bit(x: nat, t: nat)
    requires Word32(x) && t < 32
    ensures BitOf(Sum0(x), t) <==> Odd(BitOf(x, (t + 2) % 32), BitOf(x, (t + 13) % 32), BitOf(x, (t + 22) % 32))
  {
    Xor3Bit(Ror(x, 2), Ror(x, 13), Ror(x, 22), t);
    RorBit(x, 2, t);
    RorBit(x, 13, t);
    RorBit(x, 22, t);
  }

  lemma Sum1Bit(x: nat, t: nat)
    requires Word32(x) && t < 32
    ensures BitOf(Sum1(x), t) <==> Odd(BitOf(x, (t + 6) % 32), BitOf(x, (t + 11) % 32), BitOf(x, (t + 25) % 32))
  {
    Xor3Bit(Ror(x, 6), Ror(x, 11), Ror(x, 25), t);
    RorBit(x, 6, t);
    RorBit(x, 11, t);
    RorBit(x, 25, t);
  }

  lemma Sigma0Bit(x: nat, t: nat)
    requires Word32(x) && t < 32
    ensures BitOf(Sigma0(x), t) <==> Odd(BitOf(x, (t + 7) % 32), BitOf(x, (t + 18) % 32), t < 29 && BitOf(x, t + 3))
  {
    Xor3Bit(Ror(x, 7), Ror(x, 18), Shift(x, 3), t);
    RorBit(x, 7, t);
    RorBit(x, 18, t);
    ShiftBit(x, 3, t);
    if t >= 29 { WordBit(x, t + 3); }
  }

  lemma Sigma1Bit(x: nat, t: nat)
    requires Word32(x) && t < 32
    ensures BitOf(Sigma1(x), t) <==> Odd(BitOf(x, (t + 17) % 32), BitOf(x, (t + 19) % 32), t < 22 && BitOf(x, t + 10))
  {
    Xor3Bit(Ror(x, 17), Ror(x, 19), Shift(x, 10), t);
    RorBit(x, 17, t);
    RorBit(x, 19, t);
    ShiftBit(x, 10, t);
    if t >= 22 { WordBit(x, t + 10); }
  }

  // ---------- primes ----------

  ghost predicate Prime(n: nat) { n > 1 && forall d: nat {:trigger n % d} | 1 < d < n :: n % d != 0 }

  /** The first 64 primes. */
  const PRIMES0: seq<nat> := [2, 3, 5, 7, 11, 13, 17, 19]
  const PRIMES1: seq<nat> := [23, 29, 31, 37, 41, 43, 47, 53]
  const PRIMES2: seq<nat> := [59, 61, 67, 71, 73, 79, 83, 89]
  const PRIMES3: seq<nat> := [97, 101, 103, 107, 109, 113, 127, 131]
  const PRIMES4: seq<nat> := [137, 139, 149, 151, 157, 163, 167, 173]
  const PRIMES5: seq<nat> := [179, 181, 191, 193, 197, 199, 211, 223]
  const PRIMES6: seq<nat> := [227, 229, 233, 239, 241, 251, 257, 263]
  const PRIMES7: seq<nat> := [269, 271, 277, 281, 283, 293, 307, 311]
  const PRIMES: seq<nat> := PRIMES0 + PRIMES1 + PRIMES2 + PRIMES3 + PRIMES4 + PRIMES5 + PRIMES6 + PRIMES7

  /** No prime up to 17 divides n, but for n itself. */
  predicate Sieved(n: nat)
  {
    && (n % 2 != 0 || n == 2) && (n % 3 != 0 || n == 3) && (n % 5 != 0 || n == 5) && (n % 7 != 0 || n == 7)
    && (n % 11 != 0 || n == 11) && (n % 13 != 0 || n == 13) && (n % 17 != 0 || n == 17)
  }

  lemma DivisorOf(n: nat, d: nat, e: nat, p: nat)
    requires d > 0 && p > 0 && n % d == 0 && d == p * e
    ensures n % p == 0
  {
    var q := n / d;
    assert n == (q * e) * p by { assert n == d * q; }
    MultipleMod(n, q * e, p);
  }

  /** A divisor up to 18 has a prime divisor up to 17. */
  lemma SmallDivisor(n: nat, d: nat)
    requires 1 < d <= 18 && n % d == 0
    ensures n % 2 == 0 || n % 3 == 0 || n % 5 == 0 || n % 7 == 0 || n % 11 == 0 || n % 13 == 0 || n % 17 == 0
  {
    if d % 2 == 0 {
      DivisorOf(n, d, d / 2, 2);
    } else if d % 3 == 0 {
      DivisorOf(n, d, d / 3, 3);
    }
  }

  lemma SieveIs(n: nat)
    requires 1 < n < 361
    ensures Prime(n) <==> Sieved(n)
  {
    if Sieved(n) {
      forall d: nat | 1 < d < n ensures n % d != 0 {
        if n % d == 0 { SievedOut(n, d); }
      }
    }
  }

  /** One of two factors of a number below 19 * 19 is at most 18. */
  lemma SievedOut(n: nat, d: nat)
    requires 1 < d < n < 361 && n % d == 0
    ensures !Sieved(n)
  {
    var e := n / d;
    assert n == d * e;
    assert e > 1;
    if d <= 18 {
      SmallFactor(n, d);
    } else {
      OtherFactor(d, e);
      MultipleMod(n, d, e);
      assert e < n;
      SmallFactor(n, e);
    }
  }

  lemma OtherFactor(d: nat, e: nat)
    requires d >= 19 && d * e < 361
    ensures e <= 18
  {
    if e > 18 { assert d * e >= 19 * e; }
  }

  lemma SmallFactor(n: nat, d: nat)
    requires 1 < d < n && d <= 18 && n % d == 0
    ensures !Sieved(n)
  {
    SmallDivisor(n, d);
  }

  /** The sieve leaves none of the numbers from n up to q. */
  predicate NoneFrom(n: nat, q: nat)
    decreases q - n
  {
    n >= q || (!Sieved(n) && NoneFrom(n + 1, q))
  }

  predicate NextNow(p: nat, q: nat) { p < q < 361 && Sieved(q) && NoneFrom(p + 1, q) }

  /** q is the next number after p that the sieve leaves; kept folded. */
  ghost predicate Next(p: nat, q: nat)
  {
    forall n: nat {:trigger Folded(n)} | Folded(n) :: NextNow(p, q)
  }

  ghost function PrimesBelow(n: nat): nat
  {
    if n == 0 then 0 else PrimesBelow(n - 1) + if Prime(n - 1) then 1 else 0
  }

  lemma {:induction false} NoneCounted(n: nat, q: nat)
    requires 1 < n <= q < 361 && NoneFrom(n, q)
    ensures PrimesBelow(q) == PrimesBelow(n)
    decreases q - n
  {
    if n < q {
      SieveIs(n);
      NoneCounted(n + 1, q);
    }
  }

  lemma NextCounted(p: nat, q: nat)
    requires Prime(p) && Next(p, q)
    ensures Prime(q) && PrimesBelow(q) == PrimesBelow(p) + 1
  {
    assert Folded(0);
    SieveIs(q);
    NoneCounted(p + 1, q);
  }

  lemma Nexts0()
    ensures Next(2, 3) && Next(3, 5) && Next(5, 7) && Next(7, 11) && Next(11, 13) && Next(13, 17) && Next(17, 19) && Next(19, 23)
  {}

  lemma NextRow0(i: nat)
    requires 0 <= i < 8
    ensures Next(PRIMES[i], PRIMES[i + 1])
  {
    Nexts0();
  }

  lemma Nexts1()
    ensures Next(23, 29) && Next(29, 31) && Next(31, 37) && Next(37, 41) && Next(41, 43) && Next(43, 47) && Next(47, 53) && Next(53, 59)
  {}

  lemma NextRow1(i: nat)
    requires 8 <= i < 16
    ensures Next(PRIMES[i], PRIMES[i + 1])
  {
    Nexts1();
  }

  lemma Nexts2()
    ensures Next(59, 61) && Next(61, 67) && Next(67, 71) && Next(71, 73) && Next(73, 79) && Next(79, 83) && Next(83, 89) && Next(89, 97)
  {}

  lemma NextRow2(i: nat)
    requires 16 <= i < 24
    ensures Next(PRIMES[i], PRIMES[i + 1])
  {
    Nexts2();
  }

  lemma Nexts3()
    ensures Next(97, 101) && Next(101, 103) && Next(103, 107) && Next(107, 109) && Next(109, 113) && Next(113, 127) && Next(127, 131) && Next(131, 137)
  {}

  lemma NextRow3(i: nat)
    requires 24 <= i < 32
    ensures Next(PRIMES[i], PRIMES[i + 1])
  {
    Nexts3();
  }

  lemma Nexts4()
    ensures Next(137, 139) && Next(139, 149) && Next(149, 151) && Next(151, 157) && Next(157, 163) && Next(163, 167) && Next(167, 173) && Next(173, 179)
  {}

  lemma NextRow4(i: nat)
    requires 32 <= i < 40
    ensures Next(PRIMES[i], PRIMES[i + 1])
  {
    Nexts4();
  }

  lemma Nexts5()
    ensures Next(179, 181) && Next(181, 191) && Next(191, 193) && Next(193, 197) && Next(197, 199) && Next(199, 211) && Next(211, 223) && Next(223, 227)
  {}

  lemma NextRow5(i: nat)
    requires 40 <= i < 48
    ensures Next(PRIMES[i], PRIMES[i + 1])
  {
    Nexts5();
  }

  lemma Nexts6()
    ensures Next(227, 229) && Next(229, 233) && Next(233, 239) && Next(239, 241) && Next(241, 251) && Next(251, 257) && Next(257, 263) && Next(263, 269)
  {}

  lemma NextRow6(i: nat)
    requires 48 <= i < 56
    ensures Next(PRIMES[i], PRIMES[i + 1])
  {
    Nexts6();
  }

  lemma Nexts7()
    ensures Next(269, 271) && Next(271, 277) && Next(277, 281) && Next(281, 283) && Next(283, 293) && Next(293, 307) && Next(307, 311)
  {}

  lemma NextRow7(i: nat)
    requires 56 <= i < 63
    ensures Next(PRIMES[i], PRIMES[i + 1])
  {
    Nexts7();
  }

  lemma NextRow(i: nat)
    requires i < 63
    ensures Next(PRIMES[i], PRIMES[i + 1])
  {
    if i < 8 {
      NextRow0(i);
    }     else if i < 16 {
      NextRow1(i);
    }     else if i < 24 {
      NextRow2(i);
    }     else if i < 32 {
      NextRow3(i);
    }     else if i < 40 {
      NextRow4(i);
    }     else if i < 48 {
      NextRow5(i);
    }     else if i < 56 {
      NextRow6(i);
    }     else {
      NextRow7(i);
    }
  }

  /** PRIMES[i] is the prime with i primes below it. */
  lemma {:induction false} NthPrime(i: nat)
    requires i < 64
    ensures Prime(PRIMES[i]) && PrimesBelow(PRIMES[i]) == i
  {
    if i == 0 {
      SieveIs(2);
      assert PrimesBelow(2) == 0;
    } else {
      NthPrime(i - 1);
      NextRow(i - 1);
      NextCounted(PRIMES[i - 1], PRIMES[i]);
    }
  }

  // ---------- constants ----------

  /** The whole part of the cube root. */
  ghost function Whole(p: nat): nat { if p < 8 then 1 else if p < 27 then 2 else if p < 64 then 3 else if p < 125 then 4 else if p < 216 then 5 else 6 }

  /** n is the cube root of p, times 2^32, cut to an integer; kept folded. */
  ghost predicate CubeRoot(n: nat, p: nat)
  {
    forall k: nat {:trigger Folded(k)} | Folded(k) :: n * n * n <= p * 0x1_0000_0000_0000_0000_0000_0000 < (n + 1) * (n + 1) * (n + 1)
  }

  /** n is the square root of p, times 2^32, cut to an integer; kept folded. */
  ghost predicate SquareRoot(n: nat, p: nat)
  {
    forall k: nat {:trigger Folded(k)} | Folded(k) :: n * n <= p * 0x1_0000_0000_0000_0000 < (n + 1) * (n + 1)
  }

  lemma RootRow0(i: nat)
    requires 0 <= i < 8
    ensures K[i] < 0x1_0000_0000 && CubeRoot(0x1_0000_0000 * Whole(PRIMES[i]) + K[i], PRIMES[i])
  {
    assert CubeRoot(0x1428a2f98, 2)
           && CubeRoot(0x171374491, 3)
           && CubeRoot(0x1b5c0fbcf, 5)
           && CubeRoot(0x1e9b5dba5, 7)
           && CubeRoot(0x23956c25b, 11)
           && CubeRoot(0x259f111f1, 13)
           && CubeRoot(0x2923f82a4, 17)
           && CubeRoot(0x2ab1c5ed5, 19);
  }

  lemma RootRow1(i: nat)
    requires 8 <= i < 16
    ensures K[i] < 0x1_0000_0000 && CubeRoot(0x1_0000_0000 * Whole(PRIMES[i]) + K[i], PRIMES[i])
  {
    assert CubeRoot(0x2d807aa98, 23)
           && CubeRoot(0x312835b01, 29)
           && CubeRoot(0x3243185be, 31)
           && CubeRoot(0x3550c7dc3, 37)
           && CubeRoot(0x372be5d74, 41)
           && CubeRoot(0x380deb1fe, 43)
           && CubeRoot(0x39bdc06a7, 47)
           && CubeRoot(0x3c19bf174, 53);
  }

  lemma RootRow2(i: nat)
    requires 16 <= i < 24
    ensures K[i] < 0x1_0000_0000 && CubeRoot(0x1_0000_0000 * Whole(PRIMES[i]) + K[i], PRIMES[i])
  {
    assert CubeRoot(0x3e49b69c1, 59)
           && CubeRoot(0x3efbe4786, 61)
           && CubeRoot(0x40fc19dc6, 67)
           && CubeRoot(0x4240ca1cc, 71)
           && CubeRoot(0x42de92c6f, 73)
           && CubeRoot(0x44a7484aa, 79)
           && CubeRoot(0x45cb0a9dc, 83)
           && CubeRoot(0x476f988da, 89);
  }

  lemma RootRow3(i: nat)
    requires 24 <= i < 32
    ensures K[i] < 0x1_0000_0000 && CubeRoot(0x1_0000_0000 * Whole(PRIMES[i]) + K[i], PRIMES[i])
  {
    assert CubeRoot(0x4983e5152, 97)
           && CubeRoot(0x4a831c66d, 101)
           && CubeRoot(0x4b00327c8, 103)
           && CubeRoot(0x4bf597fc7, 107)
           && CubeRoot(0x4c6e00bf3, 109)
           && CubeRoot(0x4d5a79147, 113)
           && CubeRoot(0x506ca6351, 127)
           && CubeRoot(0x514292967, 131);
  }

  lemma RootRow4(i: nat)
    requires 32 <= i < 40
    ensures K[i] < 0x1_0000_0000 && CubeRoot(0x1_0000_0000 * Whole(PRIMES[i]) + K[i], PRIMES[i])
  {
    assert CubeRoot(0x527b70a85, 137)
           && CubeRoot(0x52e1b2138, 139)
           && CubeRoot(0x54d2c6dfc, 149)
           && CubeRoot(0x553380d13, 151)
           && CubeRoot(0x5650a7354, 157)
           && CubeRoot(0x5766a0abb, 163)
           && CubeRoot(0x581c2c92e, 167)
           && CubeRoot(0x592722c85, 173);
  }

  lemma RootRow5(i: nat)
    requires 40 <= i < 48
    ensures K[i] < 0x1_0000_0000 && CubeRoot(0x1_0000_0000 * Whole(PRIMES[i]) + K[i], PRIMES[i])
  {
    assert CubeRoot(0x5a2bfe8a1, 179)
           && CubeRoot(0x5a81a664b, 181)
           && CubeRoot(0x5c24b8b70, 191)
           && CubeRoot(0x5c76c51a3, 193)
           && CubeRoot(0x5d192e819, 197)
           && CubeRoot(0x5d6990624, 199)
           && CubeRoot(0x5f40e3585, 211)
           && CubeRoot(0x6106aa070, 223);
  }

  lemma RootRow6(i: nat)
    requires 48 <= i < 56
    ensures K[i] < 0x1_0000_0000 && CubeRoot(0x1_0000_0000 * Whole(PRIMES[i]) + K[i], PRIMES[i])
  {
    assert CubeRoot(0x619a4c116, 227)
           && CubeRoot(0x61e376c08, 229)
           && CubeRoot(0x62748774c, 233)
           && CubeRoot(0x634b0bcb5, 239)
           && CubeRoot(0x6391c0cb3, 241)
           && CubeRoot(0x64ed8aa4a, 251)
           && CubeRoot(0x65b9cca4f, 257)
           && CubeRoot(0x6682e6ff3, 263);
  }

  lemma RootRow7(i: nat)
    requires 56 <= i < 64
    ensures K[i] < 0x1_0000_0000 && CubeRoot(0x1_0000_0000 * Whole(PRIMES[i]) + K[i], PRIMES[i])
  {
    assert CubeRoot(0x6748f82ee, 269)
           && CubeRoot(0x678a5636f, 271)
           && CubeRoot(0x684c87814, 277)
           && CubeRoot(0x68cc70208, 281)
           && CubeRoot(0x690befffa, 283)
           && CubeRoot(0x6a4506ceb, 293)
           && CubeRoot(0x6bef9a3f7, 307)
           && CubeRoot(0x6c67178f2, 311);
  }

  lemma RootRow(i: nat)
    requires i < 64
    ensures K[i] < 0x1_0000_0000 && CubeRoot(0x1_0000_0000 * Whole(PRIMES[i]) + K[i], PRIMES[i])
  {
    if i < 8 {
      RootRow0(i);
    }     else if i < 16 {
      RootRow1(i);
    }     else if i < 24 {
      RootRow2(i);
    }     else if i < 32 {
      RootRow3(i);
    }     else if i < 40 {
      RootRow4(i);
    }     else if i < 48 {
      RootRow5(i);
    }     else if i < 56 {
      RootRow6(i);
    }     else {
      RootRow7(i);
    }
  }

  /** Each round constant is the first 32 bits of the fractional part of the cube root of its prime. */
  lemma RoundConstant(i: nat) returns (n: nat, p: nat)
    requires i < 64
    ensures Prime(p) && PrimesBelow(p) == i && CubeRoot(n, p) && K[i] == n % 0x1_0000_0000
  {
    NthPrime(i);
    n, p := RootOf(i);
  }

  lemma RootOf(i: nat) returns (n: nat, p: nat)
    requires i < 64
    ensures p == PRIMES[i] && CubeRoot(n, p) && n % 0x1_0000_0000 == K[i]
  {
    RootRow(i);
    p := PRIMES[i];
    n := LowPart(K[i], p, Whole(p));
  }

  lemma LowPart(k: nat, p: nat, w: nat) returns (n: nat)
    requires k < 0x1_0000_0000 && CubeRoot(0x1_0000_0000 * w + k, p)
    ensures CubeRoot(n, p) && n % 0x1_0000_0000 == k
  {
    n := 0x1_0000_0000 * w + k;
  }

  lemma SquareRoots()
    ensures SquareRoot(0x1_6a09e667, 2) && SquareRoot(0x1_bb67ae85, 3) && SquareRoot(0x2_3c6ef372, 5) && SquareRoot(0x2_a54ff53a, 7)
    ensures SquareRoot(0x3_510e527f, 11) && SquareRoot(0x3_9b05688c, 13) && SquareRoot(0x4_1f83d9ab, 17) && SquareRoot(0x4_5be0cd19, 19)
  {}

  /** Each word of the initial hash value is the first 32 bits of the fractional part of the square root of its prime. */
  lemma InitialWord(i: nat) returns (n: nat, p: nat)
    requires i < 8
    ensures Prime(p) && PrimesBelow(p) == i && SquareRoot(n, p) && At(IV, i) == n % 0x1_0000_0000
  {
    NthPrime(i);
    SquareRoots();
    p := PRIMES[i];
    n := [0x1_6a09e667, 0x1_bb67ae85, 0x2_3c6ef372, 0x2_a54ff53a, 0x3_510e527f, 0x3_9b05688c, 0x4_1f83d9ab, 0x4_5be0cd19][i];
  }

  // ---------- the compression function ----------

  /** Working variables a and e after t steps; b, c, d and f, g, h are those of one, two and three steps before. */
  ghost function A(v: Regs, m: seq<byte>, t: int): nat
    requires |m| == 64 && -3 <= t <= 64
    decreases t + 3, 0
  {
    if t == -3 then v.d else if t == -2 then v.c else if t == -1 then v.b else if t == 0 then v.a
    else Stirred(Mixed(v, m, t), A(v, m, t - 1), A(v, m, t - 2), A(v, m, t - 3))
  }

  ghost function E(v: Regs, m: seq<byte>, t: int): nat
    requires |m| == 64 && -3 <= t <= 64
    decreases t + 3, 0
  {
    if t == -3 then v.h else if t == -2 then v.g else if t == -1 then v.f else if t == 0 then v.e
    else (A(v, m, t - 4) + Mixed(v, m, t)) % 0x1_0000_0000
  }

  ghost function Mixed(v: Regs, m: seq<byte>, t: int): nat
    requires |m| == 64 && 0 < t <= 64
    decreases t + 2, 1
  {
    Blend(E(v, m, t - 4), E(v, m, t - 1), E(v, m, t - 2), E(v, m, t - 3), K[t - 1], W(m, t - 1))
  }

  ghost function Blend(h: nat, e: nat, f: nat, g: nat, k: nat, w: nat): nat { h + Sum1(e) + Ch(e, f, g) + k + w }

  ghost function Stirred(x: nat, a: nat, b: nat, c: nat): nat { (x + Sum0(a) + Maj(a, b, c)) % 0x1_0000_0000 }

  lemma PlusFive(a: nat, b: nat, c: nat, d: nat, e: nat)
    ensures Plus(Plus(Plus(a, b), c), Plus(d, e)) == (a + b + c + d + e) % 0x1_0000_0000
  {}

  lemma PlusMod(a: nat, b: nat)
    ensures Plus(a % 0x1_0000_0000, b) == Plus(a, b) && Plus(b, a % 0x1_0000_0000) == Plus(b, a)
  {}

  /** The eight variables are two sequences of words. */
  lemma {:induction false} StepsAre(v: Regs, m: seq<byte>, t: nat)
    requires |m| == 64 && t <= 64
    ensures Steps(v, m, t) == Regs(A(v, m, t), A(v, m, t - 1), A(v, m, t - 2), A(v, m, t - 3),
                                   E(v, m, t), E(v, m, t - 1), E(v, m, t - 2), E(v, m, t - 3))
  {
    if t > 0 {
      StepsAre(v, m, t - 1);
      NextWords(v, m, t, Steps(v, m, t - 1));
    }
  }

  lemma NextWords(v: Regs, m: seq<byte>, t: nat, r: Regs)
    requires |m| == 64 && 0 < t <= 64 && r.d == A(v, m, t - 4) && r.h == E(v, m, t - 4)
    requires r.a == A(v, m, t - 1) && r.b == A(v, m, t - 2) && r.c == A(v, m, t - 3)
    requires r.e == E(v, m, t - 1) && r.f == E(v, m, t - 2) && r.g == E(v, m, t - 3)
    ensures Step(r, K[t - 1], W(m, t - 1)) == Regs(A(v, m, t), r.a, r.b, r.c, E(v, m, t), r.e, r.f, r.g)
  {
    var k, w := K[t - 1], W(m, t - 1);
    StepIs(r, k, w);
    MixedIs(v, m, t, r, k, w);
    NextA(v, m, t, Mixed(v, m, t), r);
    NextE(v, m, t, Mixed(v, m, t), r.d);
  }

  lemma MixedIs(v: Regs, m: seq<byte>, t: nat, r: Regs, k: nat, w: nat)
    requires |m| == 64 && 0 < t <= 64 && k == K[t - 1] && w == W(m, t - 1) && r.h == E(v, m, t - 4)
    requires r.e == E(v, m, t - 1) && r.f == E(v, m, t - 2) && r.g == E(v, m, t - 3)
    ensures Mixed(v, m, t) == Blend(r.h, r.e, r.f, r.g, k, w)
  {}

  lemma NextA(v: Regs, m: seq<byte>, t: nat, x: nat, r: Regs)
    requires |m| == 64 && 0 < t <= 64 && x == Mixed(v, m, t)
    requires r.a == A(v, m, t - 1) && r.b == A(v, m, t - 2) && r.c == A(v, m, t - 3)
    ensures A(v, m, t) == Stirred(x, r.a, r.b, r.c)
  {}

  lemma NextE(v: Regs, m: seq<byte>, t: nat, x: nat, d: nat)
    requires |m| == 64 && 0 < t <= 64 && x == Mixed(v, m, t) && d == A(v, m, t - 4)
    ensures E(v, m, t) == (d + x) % 0x1_0000_0000
  {}

  lemma StepIs(r: Regs, k: nat, w: nat)
    ensures var x := Blend(r.h, r.e, r.f, r.g, k, w);
      Step(r, k, w) == Regs(Stirred(x, r.a, r.b, r.c), r.a, r.b, r.c, (r.d + x) % 0x1_0000_0000, r.e, r.f, r.g)
  {
    var x := r.h + Sum1(r.e) + Ch(r.e, r.f, r.g) + k + w;
    PlusFive(r.h, Sum1(r.e), Ch(r.e, r.f, r.g), k, w);
    PlusMod(x, Plus(Sum0(r.a), Maj(r.a, r.b, r.c)));
    PlusMod(Sum0(r.a) + Maj(r.a, r.b, r.c), x);
    PlusMod(x, r.d);
  }

  /** One step, as section 6.2.2 writes it. */
  lemma StepWords(r: Regs, k: nat, w: nat)
    ensures var s := Step(r, k, w);
      && s.a == (r.h + Sum1(r.e) + Ch(r.e, r.f, r.g) + k + w + Sum0(r.a) + Maj(r.a, r.b, r.c)) % 0x1_0000_0000
      && s.e == (r.d + r.h + Sum1(r.e) + Ch(r.e, r.f, r.g) + k + w) % 0x1_0000_0000
      && s.b == r.a && s.c == r.b && s.d == r.c && s.f == r.e && s.g == r.f && s.h == r.g
  {
    StepIs(r, k, w);
  }

  /** The hash value after a block: the sums of the words. */
  lemma SumWord(x: Regs, y: Regs, i: nat)
    requires i < 8
    ensures At(Add(x, y), i) == (At(x, i) + At(y, i)) % 0x1_0000_0000
  {}

  /** The message schedule starts with the big-endian words of the block. */
  lemma ScheduleStarts(m: seq<byte>, t: nat)
    requires |m| == 64 && t < 16
    ensures W(m, t) == Decode([m[4 * t + 3], m[4 * t + 2], m[4 * t + 1], m[4 * t]])
  {
    FourBytes([m[4 * t + 3], m[4 * t + 2], m[4 * t + 1], m[4 * t]]);
  }

  /** ... and goes on by the recurrence of section 6.2.2. */
  lemma ScheduleIs(m: seq<byte>, t: nat)
    requires |m| == 64 && t >= 16
    ensures W(m, t) == (Sigma1(W(m, t - 2)) + W(m, t - 7) + Sigma0(W(m, t - 15)) + W(m, t - 16)) % 0x1_0000_0000
  {
    PlusFour(Sigma1(W(m, t - 2)), W(m, t - 7), Sigma0(W(m, t - 15)), W(m, t - 16));
  }

  lemma PlusFour(a: nat, b: nat, c: nat, d: nat)
    ensures Plus(Plus(a, b), Plus(c, d)) == (a + b + c + d) % 0x1_0000_0000
  {}

  // ---------- padding and digest ----------

  /** The message, a byte 0x80, zeros, and the length in bits as a big-endian number; as short as whole blocks allow. */
  lemma PadIs(m: seq<byte>)
    requires 8 * |m| < 0x1_0000_0000_0000_0000
    ensures var p := Pad(m);
      && |p| % 64 == 0 && |m| + 9 <= |p| < |m| + 9 + 64 && m <= p && p[|m|] == 0x80
      && (forall i | |m| < i < |p| - 8 :: p[i] == 0)
      && Decode(seq(8, i requires 0 <= i < 8 => p[|p| - 1 - i])) == 8 * |m|
  {
    var p := Pad(m);
    var s: seq<byte> := seq(8, i requires 0 <= i < 8 => p[|p| - 1 - i]);
    forall i | 0 <= i < 8 ensures s[i] == 8 * |m| / Pow2(8 * i) % 256 {
      assert s[i] == LengthByte(8 * |m|, 7 - i);
      ShiftIs(8 * |m|, 8 * i);
    }
    Pow2Values();
    Pow2Add(32, 32);
    DecodeDigits(s, 8 * |m|);
  }

  lemma BytesOf(x: nat)
    requires x < 0x1_0000_0000
    ensures x == 0x100_0000 * (Shift(x, 24) % 256) + 0x1_0000 * (Shift(x, 16) % 256) + 0x100 * (Shift(x, 8) % 256) + Shift(x, 0) % 256
  {
    ByteShifts(x);
    var a, b, c := x / 0x100, x / 0x1_0000, x / 0x100_0000;
    assert b == a / 256 && c == b / 256 && c < 256;
  }

  lemma ByteShifts(x: nat)
    ensures Shift(x, 0) == x && Shift(x, 8) == x / 0x100 && Shift(x, 16) == x / 0x1_0000 && Shift(x, 24) == x / 0x100_0000
  {
    ShiftIs(x, 8);
    ShiftIs(x, 16);
    ShiftIs(x, 24);
    Pow2Values();
    Pow2Add(8, 8);
    Pow2Add(8, 16);
  }

  /** The digest holds the eight words, each big-endian. */
  lemma DigestIs(v: Regs, i: nat)
    requires i < 8 && At(v, i) < 0x1_0000_0000
    ensures Word(Digest(v), i) == At(v, i)
  {
    BytesOf(At(v, i));
    DigestByte(v, i, 0);
    DigestByte(v, i, 1);
    DigestByte(v, i, 2);
    DigestByte(v, i, 3);
  }

  lemma DigestByte(v: Regs, i: nat, j: nat)
    requires i < 8 && j < 4
    ensures Digest(v)[4 * i + j] == Shift(At(v, i), 24 - 8 * j) % 256
  {
    assert (4 * i + j) / 4 == i && (4 * i + j) % 4 == j;
  }
}
