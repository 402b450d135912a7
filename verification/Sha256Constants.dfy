/** What RFC 6234 says of the constants of SHA-256 in sections 5.1 and 6.1: the words of K are the first 32 bits of
    the fractional parts of the cube roots of the first 64 primes, and the words of the initial hash value are those
    of the square roots of the first eight. */
module Sha256Constants {
  import opened ModArith
  import opened Primes
  import opened Bytes
  import opened Sha256Spec

  // ---- the first 64 primes ----

  const P0: seq<nat> := [2, 3, 5, 7, 11, 13, 17, 19]
  const P1: seq<nat> := [23, 29, 31, 37, 41, 43, 47, 53]
  const P2: seq<nat> := [59, 61, 67, 71, 73, 79, 83, 89]
  const P3: seq<nat> := [97, 101, 103, 107, 109, 113, 127, 131]
  const P4: seq<nat> := [137, 139, 149, 151, 157, 163, 167, 173]
  const P5: seq<nat> := [179, 181, 191, 193, 197, 199, 211, 223]
  const P6: seq<nat> := [227, 229, 233, 239, 241, 251, 257, 263]
  const P7: seq<nat> := [269, 271, 277, 281, 283, 293, 307, 311]
  const PRIMES: seq<nat> := P0 + P1 + P2 + P3 + P4 + P5 + P6 + P7

  ghost predicate PrimeIs(t: nat, p: nat) {
    t < |PRIMES| && PRIMES[t] == p
  }

  lemma PrimesFrom0()
    ensures PrimeIs(0, 2) && PrimeIs(1, 3) && PrimeIs(2, 5) && PrimeIs(3, 7)
    ensures PrimeIs(4, 11) && PrimeIs(5, 13) && PrimeIs(6, 17) && PrimeIs(7, 19)
  {
  }

  lemma PrimesFrom8()
    ensures PrimeIs(8, 23) && PrimeIs(9, 29) && PrimeIs(10, 31) && PrimeIs(11, 37)
    ensures PrimeIs(12, 41) && PrimeIs(13, 43) && PrimeIs(14, 47) && PrimeIs(15, 53)
  {
  }

  lemma PrimesFrom16()
    ensures PrimeIs(16, 59) && PrimeIs(17, 61) && PrimeIs(18, 67) && PrimeIs(19, 71)
    ensures PrimeIs(20, 73) && PrimeIs(21, 79) && PrimeIs(22, 83) && PrimeIs(23, 89)
  {
  }

  lemma PrimesFrom24()
    ensures PrimeIs(24, 97) && PrimeIs(25, 101) && PrimeIs(26, 103) && PrimeIs(27, 107)
    ensures PrimeIs(28, 109) && PrimeIs(29, 113) && PrimeIs(30, 127) && PrimeIs(31, 131)
  {
  }

  lemma PrimesFrom32()
    ensures PrimeIs(32, 137) && PrimeIs(33, 139) && PrimeIs(34, 149) && PrimeIs(35, 151)
    ensures PrimeIs(36, 157) && PrimeIs(37, 163) && PrimeIs(38, 167) && PrimeIs(39, 173)
  {
  }

  lemma PrimesFrom40()
    ensures PrimeIs(40, 179) && PrimeIs(41, 181) && PrimeIs(42, 191) && PrimeIs(43, 193)
    ensures PrimeIs(44, 197) && PrimeIs(45, 199) && PrimeIs(46, 211) && PrimeIs(47, 223)
  {
  }

  lemma PrimesFrom48()
    ensures PrimeIs(48, 227) && PrimeIs(49, 229) && PrimeIs(50, 233) && PrimeIs(51, 239)
    ensures PrimeIs(52, 241) && PrimeIs(53, 251) && PrimeIs(54, 257) && PrimeIs(55, 263)
  {
  }

  lemma PrimesFrom56()
    ensures PrimeIs(56, 269) && PrimeIs(57, 271) && PrimeIs(58, 277) && PrimeIs(59, 281)
    ensures PrimeIs(60, 283) && PrimeIs(61, 293) && PrimeIs(62, 307) && PrimeIs(63, 311)
  {
  }

  /** No number from 2 to 17 divides q. */
  predicate Unsieved(q: nat) {
    && q % 2 != 0 && q % 3 != 0 && q % 4 != 0 && q % 5 != 0 && q % 6 != 0 && q % 7 != 0 && q % 8 != 0 && q % 9 != 0
    && q % 10 != 0 && q % 11 != 0 && q % 12 != 0 && q % 13 != 0 && q % 14 != 0 && q % 15 != 0 && q % 16 != 0
    && q % 17 != 0
  }

  /** An odd number is three times another, or is above 17 and another prime up to 17 divides it. */
  predicate Sieved(q: nat) {
    || (q > 3 && q % 3 == 0)
    || (q > 17 && (q % 5 == 0 || q % 7 == 0 || q % 11 == 0 || q % 13 == 0 || q % 17 == 0))
  }

  /** The odd numbers from p to q, which are at most 14 apart, are all sieved. */
  predicate Gap(p: nat, q: nat) {
    && p % 2 == 1 && p < q <= p + 14
    && (p + 2 < q ==> Sieved(p + 2)) && (p + 4 < q ==> Sieved(p + 4)) && (p + 6 < q ==> Sieved(p + 6))
    && (p + 8 < q ==> Sieved(p + 8)) && (p + 10 < q ==> Sieved(p + 10)) && (p + 12 < q ==> Sieved(p + 12))
  }

  /** A number below 18^2 without divisor up to 17 is a prime. */
  lemma UnsievedPrime(q: nat)
    requires 17 < q < 324 && Unsieved(q)
    ensures IsPrime(q)
  {
    hide Unsieved;
    forall d | 2 <= d < q
      ensures !Divides(d, q)
    {
      if d <= 17 {
        UnsievedAt(q, d);
      } else if q % d == 0 {
        CoDivisor(q, d);
        UnsievedAt(q, q / d);
      }
    }
  }

  lemma UnsievedAt(q: nat, d: nat)
    requires Unsieved(q) && 2 <= d <= 17
    ensures q % d != 0
  {
  }

  lemma CoDivisor(q: nat, d: nat)
    requires 18 <= d < q < 324 && q % d == 0
    ensures 2 <= q / d <= 17 && q % (q / d) == 0
  {
    var e := q / d;
    assert q == e * d;
    if e >= 18 {
      MulMonotone(18, e, d);
    }
    MultipleMod(d, e);
  }

  lemma SmallPrimes()
    ensures IsPrime(2) && IsPrime(3) && IsPrime(5) && IsPrime(7) && IsPrime(11) && IsPrime(13) && IsPrime(17)
  {
  }

  lemma SievedComposite(q: nat)
    requires Sieved(q)
    ensures !IsPrime(q)
  {
    var d := if q % 3 == 0 then 3 else if q % 5 == 0 then 5 else if q % 7 == 0 then 7
             else if q % 11 == 0 then 11 else if q % 13 == 0 then 13 else 17;
    assert Divides(d, q);
  }

  lemma EvenComposite(q: nat)
    requires q > 2 && q % 2 == 0
    ensures !IsPrime(q)
  {
    assert Divides(2, q);
  }

  lemma GapAt(p: nat, q: nat, r: nat)
    requires Gap(p, q) && p < r < q && r > 2
    ensures !IsPrime(r)
  {
    hide Sieved, IsPrime;
    if r % 2 == 0 {
      EvenComposite(r);
    } else {
      SievedComposite(r);
    }
  }

  /** q is the first prime after p. */
  ghost predicate NextPrime(p: nat, q: nat) {
    p < q && IsPrime(q) && forall r :: p < r < q ==> !IsPrime(r)
  }

  lemma NextIs(t: nat, p: nat, q: nat)
    requires PrimeIs(t, p) && PrimeIs(t + 1, q) && 3 <= p < q < 324
    requires q > 17 ==> Unsieved(q)
    requires q <= 17 ==> q in {5, 7, 11, 13, 17}
    requires Gap(p, q)
    ensures NextPrime(PRIMES[t], PRIMES[t + 1])
  {
    hide Unsieved, IsPrime, Sieved, Gap;
    SmallPrimes();
    if q > 17 {
      UnsievedPrime(q);
    }
    forall r | p < r < q
      ensures !IsPrime(r)
    {
      GapAt(p, q, r);
    }
    assert NextPrime(p, q);
  }

  ghost predicate RowOfPrimes(t: nat) {
    |PRIMES| == 64 && forall i {:trigger PRIMES[i]} :: t <= i < t + 4 && i < 63 ==> NextPrime(PRIMES[i], PRIMES[i + 1])
  }

  lemma ThreeAfterTwo()
    requires PrimeIs(0, 2) && PrimeIs(1, 3)
    ensures NextPrime(PRIMES[0], PRIMES[1])
  {
    hide IsPrime;
    SmallPrimes();
  }

  lemma NextFrom0()
    ensures RowOfPrimes(0)
  {
    hide PrimeIs, NextPrime;
    PrimesFrom0();
    ThreeAfterTwo();
    NextIs(1, 3, 5);
    NextIs(2, 5, 7);
    NextIs(3, 7, 11);
  }

  lemma NextFrom4()
    ensures RowOfPrimes(4)
  {
    hide PrimeIs, NextPrime;
    PrimesFrom0();
    PrimesFrom8();
    NextIs(4, 11, 13);
    NextIs(5, 13, 17);
    NextIs(6, 17, 19);
    NextIs(7, 19, 23);
  }

  lemma NextFrom8()
    ensures RowOfPrimes(8)
  {
    hide PrimeIs, NextPrime;
    PrimesFrom8();
    NextIs(8, 23, 29);
    NextIs(9, 29, 31);
    NextIs(10, 31, 37);
    NextIs(11, 37, 41);
  }

  lemma NextFrom12()
    ensures RowOfPrimes(12)
  {
    hide PrimeIs, NextPrime;
    PrimesFrom8();
    PrimesFrom16();
    NextIs(12, 41, 43);
    NextIs(13, 43, 47);
    NextIs(14, 47, 53);
    NextIs(15, 53, 59);
  }

  lemma NextFrom16()
    ensures RowOfPrimes(16)
  {
    hide PrimeIs, NextPrime;
    PrimesFrom16();
    NextIs(16, 59, 61);
    NextIs(17, 61, 67);
    NextIs(18, 67, 71);
    NextIs(19, 71, 73);
  }

  lemma NextFrom20()
    ensures RowOfPrimes(20)
  {
    hide PrimeIs, NextPrime;
    PrimesFrom16();
    PrimesFrom24();
    NextIs(20, 73, 79);
    NextIs(21, 79, 83);
    NextIs(22, 83, 89);
    NextIs(23, 89, 97);
  }

  lemma NextFrom24()
    ensures RowOfPrimes(24)
  {
    hide PrimeIs, NextPrime;
    PrimesFrom24();
    NextIs(24, 97, 101);
    NextIs(25, 101, 103);
    NextIs(26, 103, 107);
    NextIs(27, 107, 109);
  }

  lemma NextFrom28()
    ensures RowOfPrimes(28)
  {
    hide PrimeIs, NextPrime;
    PrimesFrom24();
    PrimesFrom32();
    NextIs(28, 109, 113);
    NextIs(29, 113, 127);
    NextIs(30, 127, 131);
    NextIs(31, 131, 137);
  }

  lemma NextFrom32()
    ensures RowOfPrimes(32)
  {
    hide PrimeIs, NextPrime;
    PrimesFrom32();
    NextIs(32, 137, 139);
    NextIs(33, 139, 149);
    NextIs(34, 149, 151);
    NextIs(35, 151, 157);
  }

  lemma NextFrom36()
    ensures RowOfPrimes(36)
  {
    hide PrimeIs, NextPrime;
    PrimesFrom32();
    PrimesFrom40();
    NextIs(36, 157, 163);
    NextIs(37, 163, 167);
    NextIs(38, 167, 173);
    NextIs(39, 173, 179);
  }

  lemma NextFrom40()
    ensures RowOfPrimes(40)
  {
    hide PrimeIs, NextPrime;
    PrimesFrom40();
    NextIs(40, 179, 181);
    NextIs(41, 181, 191);
    NextIs(42, 191, 193);
    NextIs(43, 193, 197);
  }

  lemma NextFrom44()
    ensures RowOfPrimes(44)
  {
    hide PrimeIs, NextPrime;
    PrimesFrom40();
    PrimesFrom48();
    NextIs(44, 197, 199);
    NextIs(45, 199, 211);
    NextIs(46, 211, 223);
    NextIs(47, 223, 227);
  }

  lemma NextFrom48()
    ensures RowOfPrimes(48)
  {
    hide PrimeIs, NextPrime;
    PrimesFrom48();
    NextIs(48, 227, 229);
    NextIs(49, 229, 233);
    NextIs(50, 233, 239);
    NextIs(51, 239, 241);
  }

  lemma NextFrom52()
    ensures RowOfPrimes(52)
  {
    hide PrimeIs, NextPrime;
    PrimesFrom48();
    PrimesFrom56();
    NextIs(52, 241, 251);
    NextIs(53, 251, 257);
    NextIs(54, 257, 263);
    NextIs(55, 263, 269);
  }

  lemma NextFrom56()
    ensures RowOfPrimes(56)
  {
    hide PrimeIs, NextPrime;
    PrimesFrom56();
    NextIs(56, 269, 271);
    NextIs(57, 271, 277);
    NextIs(58, 277, 281);
    NextIs(59, 281, 283);
  }

  lemma NextFrom60()
    ensures RowOfPrimes(60)
  {
    hide PrimeIs, NextPrime;
    PrimesFrom56();
    NextIs(60, 283, 293);
    NextIs(61, 293, 307);
    NextIs(62, 307, 311);
  }

  /** The list is that of the first 64 primes. */
  lemma FirstPrimes()
    ensures |PRIMES| == 64 && PRIMES[0] == 2 && IsPrime(2)
    ensures forall t :: 0 <= t < 63 ==> NextPrime(PRIMES[t], PRIMES[t + 1])
  {
    hide NextPrime, IsPrime;
    SmallPrimes();
    PrimesFrom0();
    NextFrom0();
    NextFrom4();
    NextFrom8();
    NextFrom12();
    NextFrom16();
    NextFrom20();
    NextFrom24();
    NextFrom28();
    NextFrom32();
    NextFrom36();
    NextFrom40();
    NextFrom44();
    NextFrom48();
    NextFrom52();
    NextFrom56();
    NextFrom60();
  }

  // ---- the words of K ----

  ghost predicate KIs(t: nat, k: word) {
    t < |K| && K[t] == k
  }

  lemma ConstantsFrom0()
    ensures KIs(0, 0x428A2F98) && KIs(1, 0x71374491) && KIs(2, 0xB5C0FBCF) && KIs(3, 0xE9B5DBA5)
    ensures KIs(4, 0x3956C25B) && KIs(5, 0x59F111F1) && KIs(6, 0x923F82A4) && KIs(7, 0xAB1C5ED5)
  {
  }

  lemma ConstantsFrom8()
    ensures KIs(8, 0xD807AA98) && KIs(9, 0x12835B01) && KIs(10, 0x243185BE) && KIs(11, 0x550C7DC3)
    ensures KIs(12, 0x72BE5D74) && KIs(13, 0x80DEB1FE) && KIs(14, 0x9BDC06A7) && KIs(15, 0xC19BF174)
  {
  }

  lemma ConstantsFrom16()
    ensures KIs(16, 0xE49B69C1) && KIs(17, 0xEFBE4786) && KIs(18, 0x0FC19DC6) && KIs(19, 0x240CA1CC)
    ensures KIs(20, 0x2DE92C6F) && KIs(21, 0x4A7484AA) && KIs(22, 0x5CB0A9DC) && KIs(23, 0x76F988DA)
  {
  }

  lemma ConstantsFrom24()
    ensures KIs(24, 0x983E5152) && KIs(25, 0xA831C66D) && KIs(26, 0xB00327C8) && KIs(27, 0xBF597FC7)
    ensures KIs(28, 0xC6E00BF3) && KIs(29, 0xD5A79147) && KIs(30, 0x06CA6351) && KIs(31, 0x14292967)
  {
  }

  lemma ConstantsFrom32()
    ensures KIs(32, 0x27B70A85) && KIs(33, 0x2E1B2138) && KIs(34, 0x4D2C6DFC) && KIs(35, 0x53380D13)
    ensures KIs(36, 0x650A7354) && KIs(37, 0x766A0ABB) && KIs(38, 0x81C2C92E) && KIs(39, 0x92722C85)
  {
  }

  lemma ConstantsFrom40()
    ensures KIs(40, 0xA2BFE8A1) && KIs(41, 0xA81A664B) && KIs(42, 0xC24B8B70) && KIs(43, 0xC76C51A3)
    ensures KIs(44, 0xD192E819) && KIs(45, 0xD6990624) && KIs(46, 0xF40E3585) && KIs(47, 0x106AA070)
  {
  }

  lemma ConstantsFrom48()
    ensures KIs(48, 0x19A4C116) && KIs(49, 0x1E376C08) && KIs(50, 0x2748774C) && KIs(51, 0x34B0BCB5)
    ensures KIs(52, 0x391C0CB3) && KIs(53, 0x4ED8AA4A) && KIs(54, 0x5B9CCA4F) && KIs(55, 0x682E6FF3)
  {
  }

  lemma ConstantsFrom56()
    ensures KIs(56, 0x748F82EE) && KIs(57, 0x78A5636F) && KIs(58, 0x84C87814) && KIs(59, 0x8CC70208)
    ensures KIs(60, 0x90BEFFFA) && KIs(61, 0xA4506CEB) && KIs(62, 0xBEF9A3F7) && KIs(63, 0xC67178F2)
  {
  }

  /** c + v / 2^32 is the cube root of p, cut off after 32 binary digits. */
  ghost predicate CubeRoot(p: nat, c: nat, v: nat) {
    var r := c * 0x1_0000_0000 + v;
    r * r * r <= p * 0x1_0000_0000_0000_0000_0000_0000 < (r + 1) * (r + 1) * (r + 1)
  }

  /** v / 2^32 is the fractional part of the cube root of p, cut off. */
  ghost predicate CubeRootFraction(p: nat, v: nat) {
    v < 0x1_0000_0000 && exists c: nat :: CubeRoot(p, c, v)
  }

  ghost predicate ConstantFrom(t: nat) {
    |PRIMES| == |K| == 64 && t < 64 && CubeRootFraction(PRIMES[t], K[t] as nat)
  }

  lemma CubeIs(t: nat, p: nat, k: word, c: nat)
    requires PrimeIs(t, p) && KIs(t, k) && CubeRoot(p, c, k as nat)
    ensures ConstantFrom(t)
  {
    hide CubeRoot;
  }

  lemma CubesFrom0()
    ensures ConstantFrom(0) && ConstantFrom(1) && ConstantFrom(2) && ConstantFrom(3)
    ensures ConstantFrom(4) && ConstantFrom(5) && ConstantFrom(6) && ConstantFrom(7)
  {
    hide KIs, PrimeIs, ConstantFrom;
    PrimesFrom0();
    ConstantsFrom0();
    CubeIs(0, 2, 0x428A2F98, 1);
    CubeIs(1, 3, 0x71374491, 1);
    CubeIs(2, 5, 0xB5C0FBCF, 1);
    CubeIs(3, 7, 0xE9B5DBA5, 1);
    CubeIs(4, 11, 0x3956C25B, 2);
    CubeIs(5, 13, 0x59F111F1, 2);
    CubeIs(6, 17, 0x923F82A4, 2);
    CubeIs(7, 19, 0xAB1C5ED5, 2);
  }

  lemma CubesFrom8()
    ensures ConstantFrom(8) && ConstantFrom(9) && ConstantFrom(10) && ConstantFrom(11)
    ensures ConstantFrom(12) && ConstantFrom(13) && ConstantFrom(14) && ConstantFrom(15)
  {
    hide KIs, PrimeIs, ConstantFrom;
    PrimesFrom8();
    ConstantsFrom8();
    CubeIs(8, 23, 0xD807AA98, 2);
    CubeIs(9, 29, 0x12835B01, 3);
    CubeIs(10, 31, 0x243185BE, 3);
    CubeIs(11, 37, 0x550C7DC3, 3);
    CubeIs(12, 41, 0x72BE5D74, 3);
    CubeIs(13, 43, 0x80DEB1FE, 3);
    CubeIs(14, 47, 0x9BDC06A7, 3);
    CubeIs(15, 53, 0xC19BF174, 3);
  }

  lemma CubesFrom16()
    ensures ConstantFrom(16) && ConstantFrom(17) && ConstantFrom(18) && ConstantFrom(19)
    ensures ConstantFrom(20) && ConstantFrom(21) && ConstantFrom(22) && ConstantFrom(23)
  {
    hide KIs, PrimeIs, ConstantFrom;
    PrimesFrom16();
    ConstantsFrom16();
    CubeIs(16, 59, 0xE49B69C1, 3);
    CubeIs(17, 61, 0xEFBE4786, 3);
    CubeIs(18, 67, 0x0FC19DC6, 4);
    CubeIs(19, 71, 0x240CA1CC, 4);
    CubeIs(20, 73, 0x2DE92C6F, 4);
    CubeIs(21, 79, 0x4A7484AA, 4);
    CubeIs(22, 83, 0x5CB0A9DC, 4);
    CubeIs(23, 89, 0x76F988DA, 4);
  }

  lemma CubesFrom24()
    ensures ConstantFrom(24) && ConstantFrom(25) && ConstantFrom(26) && ConstantFrom(27)
    ensures ConstantFrom(28) && ConstantFrom(29) && ConstantFrom(30) && ConstantFrom(31)
  {
    hide KIs, PrimeIs, ConstantFrom;
    PrimesFrom24();
    ConstantsFrom24();
    CubeIs(24, 97, 0x983E5152, 4);
    CubeIs(25, 101, 0xA831C66D, 4);
    CubeIs(26, 103, 0xB00327C8, 4);
    CubeIs(27, 107, 0xBF597FC7, 4);
    CubeIs(28, 109, 0xC6E00BF3, 4);
    CubeIs(29, 113, 0xD5A79147, 4);
    CubeIs(30, 127, 0x06CA6351, 5);
    CubeIs(31, 131, 0x14292967, 5);
  }

  lemma CubesFrom32()
    ensures ConstantFrom(32) && ConstantFrom(33) && ConstantFrom(34) && ConstantFrom(35)
    ensures ConstantFrom(36) && ConstantFrom(37) && ConstantFrom(38) && ConstantFrom(39)
  {
    hide KIs, PrimeIs, ConstantFrom;
    PrimesFrom32();
    ConstantsFrom32();
    CubeIs(32, 137, 0x27B70A85, 5);
    CubeIs(33, 139, 0x2E1B2138, 5);
    CubeIs(34, 149, 0x4D2C6DFC, 5);
    CubeIs(35, 151, 0x53380D13, 5);
    CubeIs(36, 157, 0x650A7354, 5);
    CubeIs(37, 163, 0x766A0ABB, 5);
    CubeIs(38, 167, 0x81C2C92E, 5);
    CubeIs(39, 173, 0x92722C85, 5);
  }

  lemma CubesFrom40()
    ensures ConstantFrom(40) && ConstantFrom(41) && ConstantFrom(42) && ConstantFrom(43)
    ensures ConstantFrom(44) && ConstantFrom(45) && ConstantFrom(46) && ConstantFrom(47)
  {
    hide KIs, PrimeIs, ConstantFrom;
    PrimesFrom40();
    ConstantsFrom40();
    CubeIs(40, 179, 0xA2BFE8A1, 5);
    CubeIs(41, 181, 0xA81A664B, 5);
    CubeIs(42, 191, 0xC24B8B70, 5);
    CubeIs(43, 193, 0xC76C51A3, 5);
    CubeIs(44, 197, 0xD192E819, 5);
    CubeIs(45, 199, 0xD6990624, 5);
    CubeIs(46, 211, 0xF40E3585, 5);
    CubeIs(47, 223, 0x106AA070, 6);
  }

  lemma CubesFrom48()
    ensures ConstantFrom(48) && ConstantFrom(49) && ConstantFrom(50) && ConstantFrom(51)
    ensures ConstantFrom(52) && ConstantFrom(53) && ConstantFrom(54) && ConstantFrom(55)
  {
    hide KIs, PrimeIs, ConstantFrom;
    PrimesFrom48();
    ConstantsFrom48();
    CubeIs(48, 227, 0x19A4C116, 6);
    CubeIs(49, 229, 0x1E376C08, 6);
    CubeIs(50, 233, 0x2748774C, 6);
    CubeIs(51, 239, 0x34B0BCB5, 6);
    CubeIs(52, 241, 0x391C0CB3, 6);
    CubeIs(53, 251, 0x4ED8AA4A, 6);
    CubeIs(54, 257, 0x5B9CCA4F, 6);
    CubeIs(55, 263, 0x682E6FF3, 6);
  }

  lemma CubesFrom56()
    ensures ConstantFrom(56) && ConstantFrom(57) && ConstantFrom(58) && ConstantFrom(59)
    ensures ConstantFrom(60) && ConstantFrom(61) && ConstantFrom(62) && ConstantFrom(63)
  {
    hide KIs, PrimeIs, ConstantFrom;
    PrimesFrom56();
    ConstantsFrom56();
    CubeIs(56, 269, 0x748F82EE, 6);
    CubeIs(57, 271, 0x78A5636F, 6);
    CubeIs(58, 277, 0x84C87814, 6);
    CubeIs(59, 281, 0x8CC70208, 6);
    CubeIs(60, 283, 0x90BEFFFA, 6);
    CubeIs(61, 293, 0xA4506CEB, 6);
    CubeIs(62, 307, 0xBEF9A3F7, 6);
    CubeIs(63, 311, 0xC67178F2, 6);
  }

  /** Every word of K, from the prime of its number. */
  lemma ConstantsAreCubeRoots(t: nat)
    requires t < 64
    ensures |PRIMES| == |K| == 64 && CubeRootFraction(PRIMES[t], K[t] as nat)
  {
    hide CubeRootFraction;
    AllConstants(t);
  }

  lemma AllConstants(t: nat)
    requires t < 64
    ensures ConstantFrom(t)
  {
    hide ConstantFrom;
    CubesFrom0();
    CubesFrom8();
    CubesFrom16();
    CubesFrom24();
    CubesFrom32();
    CubesFrom40();
    CubesFrom48();
    CubesFrom56();
  }

  // ---- the initial hash value ----

  ghost predicate SquareRoot(p: nat, c: nat, v: nat) {
    var r := c * 0x1_0000_0000 + v;
    r * r <= p * 0x1_0000_0000_0000_0000 < (r + 1) * (r + 1)
  }

  ghost predicate SquareRootFraction(p: nat, v: nat) {
    v < 0x1_0000_0000 && exists c: nat :: SquareRoot(p, c, v)
  }

  ghost predicate InitFrom(t: nat) {
    |PRIMES| == 64 && |INIT| == 8 && t < 8 && SquareRootFraction(PRIMES[t], INIT[t] as nat)
  }

  lemma SquareIs(t: nat, p: nat, h: word, c: nat)
    requires PrimeIs(t, p) && t < |INIT| && INIT[t] == h && SquareRoot(p, c, h as nat)
    ensures InitFrom(t)
  {
    hide SquareRoot;
  }

  lemma SquaresFrom0()
    ensures InitFrom(0) && InitFrom(1) && InitFrom(2) && InitFrom(3)
  {
    hide PrimeIs, InitFrom;
    PrimesFrom0();
    SquareIs(0, 2, 0x6A09E667, 1);
    SquareIs(1, 3, 0xBB67AE85, 1);
    SquareIs(2, 5, 0x3C6EF372, 2);
    SquareIs(3, 7, 0xA54FF53A, 2);
  }

  lemma SquaresFrom4()
    ensures InitFrom(4) && InitFrom(5) && InitFrom(6) && InitFrom(7)
  {
    hide PrimeIs, InitFrom;
    PrimesFrom0();
    SquareIs(4, 11, 0x510E527F, 3);
    SquareIs(5, 13, 0x9B05688C, 3);
    SquareIs(6, 17, 0x1F83D9AB, 4);
    SquareIs(7, 19, 0x5BE0CD19, 4);
  }

  /** Every word of the initial hash value, from the prime of its number. */
  lemma InitIsSquareRoots(t: nat)
    requires t < 8
    ensures |PRIMES| == 64 && |INIT| == 8 && SquareRootFraction(PRIMES[t], INIT[t] as nat)
  {
    hide SquareRootFraction;
    SquaresFrom0();
    SquaresFrom4();
  }
}
