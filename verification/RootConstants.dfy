/**
 The constants of SHA-256 as FIPS 180-4 defines them (sections 4.2.2 and 5.3.3): the first 32 bits of the fractional
 parts of the cube roots of the first 64 primes, and of the square roots of the first eight.
 */
module RootConstants {
  // sha256K, sixteen words a row

  const ROW0: seq<bv32> :=
    [0x428a2f98, 0x71374491, 0xb5c0fbcf, 0xe9b5dba5, 0x3956c25b, 0x59f111f1, 0x923f82a4, 0xab1c5ed5,
     0xd807aa98, 0x12835b01, 0x243185be, 0x550c7dc3, 0x72be5d74, 0x80deb1fe, 0x9bdc06a7, 0xc19bf174]
  const ROW1: seq<bv32> :=
    [0xe49b69c1, 0xefbe4786, 0x0fc19dc6, 0x240ca1cc, 0x2de92c6f, 0x4a7484aa, 0x5cb0a9dc, 0x76f988da,
     0x983e5152, 0xa831c66d, 0xb00327c8, 0xbf597fc7, 0xc6e00bf3, 0xd5a79147, 0x06ca6351, 0x14292967]
  const ROW2: seq<bv32> :=
    [0x27b70a85, 0x2e1b2138, 0x4d2c6dfc, 0x53380d13, 0x650a7354, 0x766a0abb, 0x81c2c92e, 0x92722c85,
     0xa2bfe8a1, 0xa81a664b, 0xc24b8b70, 0xc76c51a3, 0xd192e819, 0xd6990624, 0xf40e3585, 0x106aa070]
  const ROW3: seq<bv32> :=
    [0x19a4c116, 0x1e376c08, 0x2748774c, 0x34b0bcb5, 0x391c0cb3, 0x4ed8aa4a, 0x5b9cca4f, 0x682e6ff3,
     0x748f82ee, 0x78a5636f, 0x84c87814, 0x8cc70208, 0x90befffa, 0xa4506ceb, 0xbef9a3f7, 0xc67178f2]

  function K(t: nat): bv32
    requires t < 64
  {
    if t < 32 then if t < 16 then ROW0[t] else ROW1[t - 16] else if t < 48 then ROW2[t - 32] else ROW3[t - 48]
  }

  /** sha256InitState, in its order. */
  const INITIAL_WORDS: seq<bv32> :=
    [0x6a09e667, 0xbb67ae85, 0x3c6ef372, 0xa54ff53a, 0x510e527f, 0x9b05688c, 0x1f83d9ab, 0x5be0cd19]

  function Value(w: bv32): nat {
    w as nat
  }

  predicate IsPrime(n: nat) {
    n >= 2 && forall d :: 2 <= d < n ==> n % d != 0
  }

  ghost function PrimesBelow(n: nat): set<nat> {
    set q: nat | q < n && IsPrime(q)
  }

  /** Prime number t, counted from 0. */
  ghost predicate IsNthPrime(p: nat, t: nat) {
    IsPrime(p) && |PrimesBelow(p)| == t
  }

  /** n is the integer part of the cube root of x. */
  predicate IsCubeRoot(n: nat, x: nat) {
    n * n * n <= x < (n + 1) * (n + 1) * (n + 1)
  }

  /** n is the integer part of the square root of x. */
  predicate IsSquareRoot(n: nat, x: nat) {
    n * n <= x < (n + 1) * (n + 1)
  }

  /** w is the beginning of the fractional part of the cube root of p; c is the integer part. */
  predicate BeginsCubeRoot(c: nat, w: nat, p: nat) {
    IsCubeRoot(0x1_0000_0000 * c + w, p * 0x1_0000_0000_0000_0000_0000_0000)
  }

  predicate BeginsSquareRoot(c: nat, w: nat, p: nat) {
    IsSquareRoot(0x1_0000_0000 * c + w, p * 0x1_0000_0000_0000_0000)
  }

  /** w begins the fractional part of the cube root of prime t. */
  ghost predicate IsCubeRootWord(t: nat, w: nat) {
    exists p, c :: IsNthPrime(p, t) && BeginsCubeRoot(c, w, p)
  }

  ghost predicate IsSquareRootWord(t: nat, w: nat) {
    exists p, c :: IsNthPrime(p, t) && BeginsSquareRoot(c, w, p)
  }

  // Primes below 19 * 19

  /** No odd prime below 19 divides n, except n itself. */
  predicate Sieved(n: nat) {
    && (n == 3 || n % 3 != 0) && (n == 5 || n % 5 != 0) && (n == 7 || n % 7 != 0) && (n == 11 || n % 11 != 0)
    && (n == 13 || n % 13 != 0) && (n == 17 || n % 17 != 0)
  }

  lemma Multiple(k: nat, f: nat)
    requires f > 0
    ensures (f * k) % f == 0
  {
    var q, r := f * k / f, f * k % f;
    assert f * k == f * q + r;
    if q < k {
      Apart(q, k, f);
    } else if k < q {
      Apart(k, q, f);
    }
  }

  lemma {:induction false} Apart(a: nat, b: nat, f: nat)
    requires a < b
    ensures f * b >= f * a + f
  {
    if b == a + 1 {
    } else {
      Apart(a, b - 1, f);
    }
  }

  lemma DividesFactor(n: nat, f: nat, g: nat)
    requires f > 0 && g > 0 && n % (f * g) == 0
    ensures n % f == 0
  {
    var k := n / (f * g);
    assert n == f * g * k == f * (g * k);
    Multiple(g * k, f);
  }

  /** A proper divisor below 19 has a prime factor that the sieve tests. */
  lemma SmallDivisor(n: nat, d: nat)
    requires n % 2 == 1 && 2 <= d < 19 && d < n && n % d == 0
    ensures !Sieved(n)
  {
    if d % 2 == 0 {
      DividesFactor(n, 2, d / 2);
    } else if d % 3 == 0 {
      DividesFactor(n, 3, d / 3);
    } else if d == 5 || d == 7 || d == 11 || d == 13 || d == 17 {
    }
  }

  /** A divisor or its cofactor is below 19. */
  lemma AnyDivisor(n: nat, d: nat)
    requires n < 19 * 19 && n % 2 == 1 && 2 <= d < n && n % d == 0
    ensures !Sieved(n)
  {
    if d < 19 {
      SmallDivisor(n, d);
    } else {
      var f := n / d;
      assert n == f * d;
      Multiple(d, f);
      SmallDivisor(n, f);
    }
  }

  lemma SievedIsPrime(n: nat)
    requires 3 <= n < 19 * 19 && n % 2 == 1
    ensures Sieved(n) == IsPrime(n)
  {
    if Sieved(n) && !IsPrime(n) {
      var d :| 2 <= d < n && n % d == 0;
      AnyDivisor(n, d);
    }
  }

  /** n is at least q, or the sieve removes it. */
  predicate Hole(n: nat, q: nat) {
    n < q ==> !Sieved(n)
  }

  /** q is the first number behind p that the sieve leaves; both are odd. */
  predicate Follows(p: nat, q: nat) {
    && p < q <= p + 14 && q % 2 == 1 && Sieved(q)
    && Hole(p + 2, q) && Hole(p + 4, q) && Hole(p + 6, q) && Hole(p + 8, q) && Hole(p + 10, q) && Hole(p + 12, q)
  }

  lemma NoneBetween(p: nat, q: nat, n: nat)
    requires p % 2 == 1 && Follows(p, q) && q < 361 && p < n < q && p >= 3
    ensures !IsPrime(n)
  {
    if n % 2 == 1 {
      OddBetween(p, q, n);
      SievedIsPrime(n);
    }
  }

  lemma OddBetween(p: nat, q: nat, n: nat)
    requires p % 2 == 1 && Follows(p, q) && p < n < q && n % 2 == 1
    ensures !Sieved(n)
  {
    OddDistance(p, n);
    assert Hole(n, q);
  }

  lemma OddDistance(p: nat, n: nat)
    requires p % 2 == 1 && n % 2 == 1 && p < n < p + 14
    ensures n == p + 2 || n == p + 4 || n == p + 6 || n == p + 8 || n == p + 10 || n == p + 12
  {
  }

  lemma NextPrime(t: nat, p: nat, q: nat)
    requires p % 2 == 1 && IsNthPrime(p, t) && Follows(p, q) && q < 361
    ensures IsNthPrime(q, t + 1)
  {
    SievedIsPrime(q);
    forall n | p < n < q
      ensures !IsPrime(n)
    {
      NoneBetween(p, q, n);
    }
    assert PrimesBelow(q) == PrimesBelow(p) + {p};
  }

  lemma FirstPrimes()
    ensures IsNthPrime(2, 0) && IsNthPrime(3, 1)
  {
    assert PrimesBelow(2) == {} && PrimesBelow(3) == {2};
  }

  // The tables

  lemma Primes0()
    requires IsNthPrime(3, 1)
    ensures IsNthPrime(5, 2) && IsNthPrime(7, 3) && IsNthPrime(11, 4) && IsNthPrime(13, 5)
    ensures IsNthPrime(17, 6) && IsNthPrime(19, 7) && IsNthPrime(23, 8) && IsNthPrime(29, 9)
    ensures IsNthPrime(31, 10) && IsNthPrime(37, 11) && IsNthPrime(41, 12) && IsNthPrime(43, 13)
    ensures IsNthPrime(47, 14) && IsNthPrime(53, 15) && IsNthPrime(59, 16)
  {
    NextPrime(1, 3, 5);
    NextPrime(2, 5, 7);
    NextPrime(3, 7, 11);
    NextPrime(4, 11, 13);
    NextPrime(5, 13, 17);
    NextPrime(6, 17, 19);
    NextPrime(7, 19, 23);
    NextPrime(8, 23, 29);
    NextPrime(9, 29, 31);
    NextPrime(10, 31, 37);
    NextPrime(11, 37, 41);
    NextPrime(12, 41, 43);
    NextPrime(13, 43, 47);
    NextPrime(14, 47, 53);
    NextPrime(15, 53, 59);
  }

  lemma Primes1()
    requires IsNthPrime(59, 16)
    ensures IsNthPrime(61, 17) && IsNthPrime(67, 18) && IsNthPrime(71, 19) && IsNthPrime(73, 20)
    ensures IsNthPrime(79, 21) && IsNthPrime(83, 22) && IsNthPrime(89, 23) && IsNthPrime(97, 24)
    ensures IsNthPrime(101, 25) && IsNthPrime(103, 26) && IsNthPrime(107, 27) && IsNthPrime(109, 28)
    ensures IsNthPrime(113, 29) && IsNthPrime(127, 30) && IsNthPrime(131, 31) && IsNthPrime(137, 32)
  {
    NextPrime(16, 59, 61);
    NextPrime(17, 61, 67);
    NextPrime(18, 67, 71);
    NextPrime(19, 71, 73);
    NextPrime(20, 73, 79);
    NextPrime(21, 79, 83);
    NextPrime(22, 83, 89);
    NextPrime(23, 89, 97);
    NextPrime(24, 97, 101);
    NextPrime(25, 101, 103);
    NextPrime(26, 103, 107);
    NextPrime(27, 107, 109);
    NextPrime(28, 109, 113);
    NextPrime(29, 113, 127);
    NextPrime(30, 127, 131);
    NextPrime(31, 131, 137);
  }

  lemma Primes2()
    requires IsNthPrime(137, 32)
    ensures IsNthPrime(139, 33) && IsNthPrime(149, 34) && IsNthPrime(151, 35) && IsNthPrime(157, 36)
    ensures IsNthPrime(163, 37) && IsNthPrime(167, 38) && IsNthPrime(173, 39) && IsNthPrime(179, 40)
    ensures IsNthPrime(181, 41) && IsNthPrime(191, 42) && IsNthPrime(193, 43) && IsNthPrime(197, 44)
    ensures IsNthPrime(199, 45) && IsNthPrime(211, 46) && IsNthPrime(223, 47) && IsNthPrime(227, 48)
  {
    NextPrime(32, 137, 139);
    NextPrime(33, 139, 149);
    NextPrime(34, 149, 151);
    NextPrime(35, 151, 157);
    NextPrime(36, 157, 163);
    NextPrime(37, 163, 167);
    NextPrime(38, 167, 173);
    NextPrime(39, 173, 179);
    NextPrime(40, 179, 181);
    NextPrime(41, 181, 191);
    NextPrime(42, 191, 193);
    NextPrime(43, 193, 197);
    NextPrime(44, 197, 199);
    NextPrime(45, 199, 211);
    NextPrime(46, 211, 223);
    NextPrime(47, 223, 227);
  }

  lemma Primes3()
    requires IsNthPrime(227, 48)
    ensures IsNthPrime(229, 49) && IsNthPrime(233, 50) && IsNthPrime(239, 51) && IsNthPrime(241, 52)
    ensures IsNthPrime(251, 53) && IsNthPrime(257, 54) && IsNthPrime(263, 55) && IsNthPrime(269, 56)
    ensures IsNthPrime(271, 57) && IsNthPrime(277, 58) && IsNthPrime(281, 59) && IsNthPrime(283, 60)
    ensures IsNthPrime(293, 61) && IsNthPrime(307, 62) && IsNthPrime(311, 63) && IsNthPrime(313, 64)
  {
    NextPrime(48, 227, 229);
    NextPrime(49, 229, 233);
    NextPrime(50, 233, 239);
    NextPrime(51, 239, 241);
    NextPrime(52, 241, 251);
    NextPrime(53, 251, 257);
    NextPrime(54, 257, 263);
    NextPrime(55, 263, 269);
    NextPrime(56, 269, 271);
    NextPrime(57, 271, 277);
    NextPrime(58, 277, 281);
    NextPrime(59, 281, 283);
    NextPrime(60, 283, 293);
    NextPrime(61, 293, 307);
    NextPrime(62, 307, 311);
    NextPrime(63, 311, 313);
  }

  /** Where the rows of the table begin. */
  lemma RowStarts()
    ensures IsNthPrime(3, 1) && IsNthPrime(59, 16) && IsNthPrime(137, 32) && IsNthPrime(227, 48)
  {
    FirstPrimes();
    Primes0();
    Primes1();
    Primes2();
  }

  lemma Row0(i: nat)
    requires i < 16 && IsNthPrime(3, 1)
    ensures IsCubeRootWord(i + 0, Value(ROW0[i]))
  {
    FirstPrimes();
    Primes0();
    Roots0();
    assert i == 0 || i == 1 || i == 2 || i == 3 || i == 4 || i == 5 || i == 6 || i == 7 || i == 8 || i == 9
      || i == 10 || i == 11 || i == 12 || i == 13 || i == 14 || i == 15;
    var p := [2, 3, 5, 7, 11, 13, 17, 19, 23, 29, 31, 37, 41, 43, 47, 53][i];
    var c := [1, 1, 1, 1, 2, 2, 2, 2, 2, 3, 3, 3, 3, 3, 3, 3][i];
    assert IsNthPrime(p, i + 0) && BeginsCubeRoot(c, Value(ROW0[i]), p);
  }

  lemma Roots0()
    ensures BeginsCubeRoot(1, 0x428a2f98, 2) && BeginsCubeRoot(1, 0x71374491, 3)
    ensures BeginsCubeRoot(1, 0xb5c0fbcf, 5) && BeginsCubeRoot(1, 0xe9b5dba5, 7)
    ensures BeginsCubeRoot(2, 0x3956c25b, 11) && BeginsCubeRoot(2, 0x59f111f1, 13)
    ensures BeginsCubeRoot(2, 0x923f82a4, 17) && BeginsCubeRoot(2, 0xab1c5ed5, 19)
    ensures BeginsCubeRoot(2, 0xd807aa98, 23) && BeginsCubeRoot(3, 0x12835b01, 29)
    ensures BeginsCubeRoot(3, 0x243185be, 31) && BeginsCubeRoot(3, 0x550c7dc3, 37)
    ensures BeginsCubeRoot(3, 0x72be5d74, 41) && BeginsCubeRoot(3, 0x80deb1fe, 43)
    ensures BeginsCubeRoot(3, 0x9bdc06a7, 47) && BeginsCubeRoot(3, 0xc19bf174, 53)
  {
  }

  lemma Row1(i: nat)
    requires i < 16 && IsNthPrime(59, 16)
    ensures IsCubeRootWord(i + 16, Value(ROW1[i]))
  {
    Primes1();
    Roots1();
    assert i == 0 || i == 1 || i == 2 || i == 3 || i == 4 || i == 5 || i == 6 || i == 7 || i == 8 || i == 9
      || i == 10 || i == 11 || i == 12 || i == 13 || i == 14 || i == 15;
    var p := [59, 61, 67, 71, 73, 79, 83, 89, 97, 101, 103, 107, 109, 113, 127, 131][i];
    var c := [3, 3, 4, 4, 4, 4, 4, 4, 4, 4, 4, 4, 4, 4, 5, 5][i];
    assert IsNthPrime(p, i + 16) && BeginsCubeRoot(c, Value(ROW1[i]), p);
  }

  lemma Roots1()
    ensures BeginsCubeRoot(3, 0xe49b69c1, 59) && BeginsCubeRoot(3, 0xefbe4786, 61)
    ensures BeginsCubeRoot(4, 0x0fc19dc6, 67) && BeginsCubeRoot(4, 0x240ca1cc, 71)
    ensures BeginsCubeRoot(4, 0x2de92c6f, 73) && BeginsCubeRoot(4, 0x4a7484aa, 79)
    ensures BeginsCubeRoot(4, 0x5cb0a9dc, 83) && BeginsCubeRoot(4, 0x76f988da, 89)
    ensures BeginsCubeRoot(4, 0x983e5152, 97) && BeginsCubeRoot(4, 0xa831c66d, 101)
    ensures BeginsCubeRoot(4, 0xb00327c8, 103) && BeginsCubeRoot(4, 0xbf597fc7, 107)
    ensures BeginsCubeRoot(4, 0xc6e00bf3, 109) && BeginsCubeRoot(4, 0xd5a79147, 113)
    ensures BeginsCubeRoot(5, 0x06ca6351, 127) && BeginsCubeRoot(5, 0x14292967, 131)
  {
  }

  lemma Row2(i: nat)
    requires i < 16 && IsNthPrime(137, 32)
    ensures IsCubeRootWord(i + 32, Value(ROW2[i]))
  {
    Primes2();
    Roots2();
    assert i == 0 || i == 1 || i == 2 || i == 3 || i == 4 || i == 5 || i == 6 || i == 7 || i == 8 || i == 9
      || i == 10 || i == 11 || i == 12 || i == 13 || i == 14 || i == 15;
    var p := [137, 139, 149, 151, 157, 163, 167, 173, 179, 181, 191, 193, 197, 199, 211, 223][i];
    var c := [5, 5, 5, 5, 5, 5, 5, 5, 5, 5, 5, 5, 5, 5, 5, 6][i];
    assert IsNthPrime(p, i + 32) && BeginsCubeRoot(c, Value(ROW2[i]), p);
  }

  lemma Roots2()
    ensures BeginsCubeRoot(5, 0x27b70a85, 137) && BeginsCubeRoot(5, 0x2e1b2138, 139)
    ensures BeginsCubeRoot(5, 0x4d2c6dfc, 149) && BeginsCubeRoot(5, 0x53380d13, 151)
    ensures BeginsCubeRoot(5, 0x650a7354, 157) && BeginsCubeRoot(5, 0x766a0abb, 163)
    ensures BeginsCubeRoot(5, 0x81c2c92e, 167) && BeginsCubeRoot(5, 0x92722c85, 173)
    ensures BeginsCubeRoot(5, 0xa2bfe8a1, 179) && BeginsCubeRoot(5, 0xa81a664b, 181)
    ensures BeginsCubeRoot(5, 0xc24b8b70, 191) && BeginsCubeRoot(5, 0xc76c51a3, 193)
    ensures BeginsCubeRoot(5, 0xd192e819, 197) && BeginsCubeRoot(5, 0xd6990624, 199)
    ensures BeginsCubeRoot(5, 0xf40e3585, 211) && BeginsCubeRoot(6, 0x106aa070, 223)
  {
  }

  lemma Row3(i: nat)
    requires i < 16 && IsNthPrime(227, 48)
    ensures IsCubeRootWord(i + 48, Value(ROW3[i]))
  {
    Primes3();
    Roots3();
    assert i == 0 || i == 1 || i == 2 || i == 3 || i == 4 || i == 5 || i == 6 || i == 7 || i == 8 || i == 9
      || i == 10 || i == 11 || i == 12 || i == 13 || i == 14 || i == 15;
    var p := [227, 229, 233, 239, 241, 251, 257, 263, 269, 271, 277, 281, 283, 293, 307, 311][i];
    var c := [6, 6, 6, 6, 6, 6, 6, 6, 6, 6, 6, 6, 6, 6, 6, 6][i];
    assert IsNthPrime(p, i + 48) && BeginsCubeRoot(c, Value(ROW3[i]), p);
  }

  lemma Roots3()
    ensures BeginsCubeRoot(6, 0x19a4c116, 227) && BeginsCubeRoot(6, 0x1e376c08, 229)
    ensures BeginsCubeRoot(6, 0x2748774c, 233) && BeginsCubeRoot(6, 0x34b0bcb5, 239)
    ensures BeginsCubeRoot(6, 0x391c0cb3, 241) && BeginsCubeRoot(6, 0x4ed8aa4a, 251)
    ensures BeginsCubeRoot(6, 0x5b9cca4f, 257) && BeginsCubeRoot(6, 0x682e6ff3, 263)
    ensures BeginsCubeRoot(6, 0x748f82ee, 269) && BeginsCubeRoot(6, 0x78a5636f, 271)
    ensures BeginsCubeRoot(6, 0x84c87814, 277) && BeginsCubeRoot(6, 0x8cc70208, 281)
    ensures BeginsCubeRoot(6, 0x90befffa, 283) && BeginsCubeRoot(6, 0xa4506ceb, 293)
    ensures BeginsCubeRoot(6, 0xbef9a3f7, 307) && BeginsCubeRoot(6, 0xc67178f2, 311)
  {
  }

  /** Section 4.2.2: K(t) is the first 32 bits of the fractional part of the cube root of prime t. */
  lemma RoundConstant(t: nat)
    requires t < 64
    ensures IsCubeRootWord(t, Value(K(t)))
  {
    RowStarts();
    if t < 16 {
      Row0(t);
    } else if t < 32 {
      Row1(t - 16);
    } else if t < 48 {
      Row2(t - 32);
    } else {
      Row3(t - 48);
    }
  }

  /** Section 5.3.3: the same for the initial hash value, with square roots. */
  lemma InitialConstant(i: nat)
    requires i < 8
    ensures IsSquareRootWord(i, Value(INITIAL_WORDS[i]))
  {
    FirstPrimes();
    Primes0();
    assert BeginsSquareRoot(1, 0x6a09e667, 2) && BeginsSquareRoot(1, 0xbb67ae85, 3)
      && BeginsSquareRoot(2, 0x3c6ef372, 5) && BeginsSquareRoot(2, 0xa54ff53a, 7)
      && BeginsSquareRoot(3, 0x510e527f, 11) && BeginsSquareRoot(3, 0x9b05688c, 13)
      && BeginsSquareRoot(4, 0x1f83d9ab, 17) && BeginsSquareRoot(4, 0x5be0cd19, 19);
    assert i == 0 || i == 1 || i == 2 || i == 3 || i == 4 || i == 5 || i == 6 || i == 7;
    var p, c := [2, 3, 5, 7, 11, 13, 17, 19][i], [1, 1, 2, 2, 3, 3, 4, 4][i];
    assert IsNthPrime(p, i) && BeginsSquareRoot(c, Value(INITIAL_WORDS[i]), p);
  }
}
