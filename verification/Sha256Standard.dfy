/** The functions and constants of SHA-256 as sections 4.1.2, 4.2.2 and 5.3.3 of FIPS 180-4
    describe them: the functions bit by bit, the constants by roots of primes. */
module Sha256Standard {
  import opened Primes
  import opened Sha256

  // ------------------------------------------------------------------- functions

  /** The bit of weight 2^i. Sums of places are modulo 32. */
  function BitAt(x: bv32, i: bv5): bv32 { (x >> i) & 1 }

  /** The bit that a shift to the right by `n` brings to the place `i`. */
  function ShiftedBit(x: bv32, i: bv5, n: bv5): bv32 {
    if i <= 31 - n then BitAt(x, i + n) else 0
  }

  function Xor(x: bv32, y: bv32, z: bv32): bv32 { x ^ y ^ z }

  lemma XorPlaces(x: bv32, y: bv32, z: bv32, i: bv5)
    ensures BitAt(x ^ y ^ z, i) == BitAt(x, i) ^ BitAt(y, i) ^ BitAt(z, i)
  {
  }

  lemma XorBit(x: bv32, y: bv32, z: bv32, i: bv5)
    ensures BitAt(Xor(x, y, z), i) == BitAt(x, i) ^ BitAt(y, i) ^ BitAt(z, i)
  {
    hide BitAt;
    XorPlaces(x, y, z, i);
  }

  lemma ThereAndBack(x: bv32)
    ensures (x as int) as bv32 == x
  {
  }

  lemma BigSigma0Places(x: bv32, i: bv5)
    ensures BitAt(x.RotateRight(2), i) == BitAt(x, i + 2)
    ensures BitAt(x.RotateRight(13), i) == BitAt(x, i + 13)
    ensures BitAt(x.RotateRight(22), i) == BitAt(x, i + 22)
  {
  }

  lemma BigSigma0Is(x: bv32)
    ensures BigSigma0Bits(x) == Xor(RotR(x, 2), RotR(x, 13), RotR(x, 22))
  {
    hide RotR;
  }

  lemma BigSigma0BitsBit(x: bv32, i: bv5)
    ensures BitAt(BigSigma0Bits(x), i) == BitAt(x, i + 2) ^ BitAt(x, i + 13) ^ BitAt(x, i + 22)
  {
    hide BitAt, Xor, RotR, ShiftedBit, BigSigma0Bits;
    BigSigma0Is(x);
    RotRRotates(x);
    XorBit(RotR(x, 2), RotR(x, 13), RotR(x, 22), i);
    BigSigma0Places(x, i);
  }

  lemma BigSigma0Bit(x: Word, i: bv5)
    ensures BitAt(BigSigma0(x) as bv32, i) == BitAt(x as bv32, i + 2) ^ BitAt(x as bv32, i + 13) ^ BitAt(x as bv32, i + 22)
  {
    hide BitAt, ShiftedBit, BigSigma0Bits;
    BigSigma0BitsBit(x as bv32, i);
    ThereAndBack(BigSigma0Bits(x as bv32));
  }

  lemma BigSigma1Places(x: bv32, i: bv5)
    ensures BitAt(x.RotateRight(6), i) == BitAt(x, i + 6)
    ensures BitAt(x.RotateRight(11), i) == BitAt(x, i + 11)
    ensures BitAt(x.RotateRight(25), i) == BitAt(x, i + 25)
  {
  }

  lemma BigSigma1Is(x: bv32)
    ensures BigSigma1Bits(x) == Xor(RotR(x, 6), RotR(x, 11), RotR(x, 25))
  {
    hide RotR;
  }

  lemma BigSigma1BitsBit(x: bv32, i: bv5)
    ensures BitAt(BigSigma1Bits(x), i) == BitAt(x, i + 6) ^ BitAt(x, i + 11) ^ BitAt(x, i + 25)
  {
    hide BitAt, Xor, RotR, ShiftedBit, BigSigma1Bits;
    BigSigma1Is(x);
    RotRRotates(x);
    XorBit(RotR(x, 6), RotR(x, 11), RotR(x, 25), i);
    BigSigma1Places(x, i);
  }

  lemma BigSigma1Bit(x: Word, i: bv5)
    ensures BitAt(BigSigma1(x) as bv32, i) == BitAt(x as bv32, i + 6) ^ BitAt(x as bv32, i + 11) ^ BitAt(x as bv32, i + 25)
  {
    hide BitAt, ShiftedBit, BigSigma1Bits;
    BigSigma1BitsBit(x as bv32, i);
    ThereAndBack(BigSigma1Bits(x as bv32));
  }

  lemma SmallSigma0Places(x: bv32, i: bv5)
    ensures BitAt(x.RotateRight(7), i) == BitAt(x, i + 7)
    ensures BitAt(x.RotateRight(18), i) == BitAt(x, i + 18)
    ensures BitAt(x >> 3, i) == ShiftedBit(x, i, 3)
  {
  }

  lemma SmallSigma0Is(x: bv32)
    ensures SmallSigma0Bits(x) == Xor(RotR(x, 7), RotR(x, 18), x >> 3)
  {
    hide RotR;
  }

  lemma SmallSigma0BitsBit(x: bv32, i: bv5)
    ensures BitAt(SmallSigma0Bits(x), i) == BitAt(x, i + 7) ^ BitAt(x, i + 18) ^ ShiftedBit(x, i, 3)
  {
    hide BitAt, Xor, RotR, ShiftedBit, SmallSigma0Bits;
    SmallSigma0Is(x);
    RotRRotates(x);
    XorBit(RotR(x, 7), RotR(x, 18), x >> 3, i);
    SmallSigma0Places(x, i);
  }

  lemma SmallSigma0Bit(x: Word, i: bv5)
    ensures BitAt(SmallSigma0(x) as bv32, i) == BitAt(x as bv32, i + 7) ^ BitAt(x as bv32, i + 18) ^ ShiftedBit(x as bv32, i, 3)
  {
    hide BitAt, ShiftedBit, SmallSigma0Bits;
    SmallSigma0BitsBit(x as bv32, i);
    ThereAndBack(SmallSigma0Bits(x as bv32));
  }

  lemma SmallSigma1Places(x: bv32, i: bv5)
    ensures BitAt(x.RotateRight(17), i) == BitAt(x, i + 17)
    ensures BitAt(x.RotateRight(19), i) == BitAt(x, i + 19)
    ensures BitAt(x >> 10, i) == ShiftedBit(x, i, 10)
  {
  }

  lemma SmallSigma1Is(x: bv32)
    ensures SmallSigma1Bits(x) == Xor(RotR(x, 17), RotR(x, 19), x >> 10)
  {
    hide RotR;
  }

  lemma SmallSigma1BitsBit(x: bv32, i: bv5)
    ensures BitAt(SmallSigma1Bits(x), i) == BitAt(x, i + 17) ^ BitAt(x, i + 19) ^ ShiftedBit(x, i, 10)
  {
    hide BitAt, Xor, RotR, ShiftedBit, SmallSigma1Bits;
    SmallSigma1Is(x);
    RotRRotates(x);
    XorBit(RotR(x, 17), RotR(x, 19), x >> 10, i);
    SmallSigma1Places(x, i);
  }

  lemma SmallSigma1Bit(x: Word, i: bv5)
    ensures BitAt(SmallSigma1(x) as bv32, i) == BitAt(x as bv32, i + 17) ^ BitAt(x as bv32, i + 19) ^ ShiftedBit(x as bv32, i, 10)
  {
    hide BitAt, ShiftedBit, SmallSigma1Bits;
    SmallSigma1BitsBit(x as bv32, i);
    ThereAndBack(SmallSigma1Bits(x as bv32));
  }

  // ------------------------------------------------------------------- constants

  /** `x` is the whole part of 2^32 times the cube root of `p`. */
  predicate IsCube(x: nat, p: nat) {
    x * x * x <= p * 0x1_0000_0000_0000_0000_0000_0000 < (x + 1) * (x + 1) * (x + 1)
  }

  /** The first 32 bits of the fractional part of the cube root of `p`. */
  ghost predicate IsCubeRoot(p: nat, bits: Word) {
    exists x: nat :: x % WORDS == bits && IsCube(x, p)
  }

  lemma CubeRoot(x: nat, p: nat, bits: Word)
    requires x % WORDS == bits && IsCube(x, p)
    ensures IsCubeRoot(p, bits)
  {
  }

  lemma CubeRootsFrom0(t: nat)
    requires 0 <= t < 8
    ensures IsCubeRoot(PRIMES[t], K[t])
  {
    hide IsCubeRoot;
    match t {
      case 0 => CubeRoot(0x1428a2f98, 2, 0x428a2f98);
      case 1 => CubeRoot(0x171374491, 3, 0x71374491);
      case 2 => CubeRoot(0x1b5c0fbcf, 5, 0xb5c0fbcf);
      case 3 => CubeRoot(0x1e9b5dba5, 7, 0xe9b5dba5);
      case 4 => CubeRoot(0x23956c25b, 11, 0x3956c25b);
      case 5 => CubeRoot(0x259f111f1, 13, 0x59f111f1);
      case 6 => CubeRoot(0x2923f82a4, 17, 0x923f82a4);
      case _ => CubeRoot(0x2ab1c5ed5, 19, 0xab1c5ed5);
    }
  }

  lemma CubeRootsFrom8(t: nat)
    requires 8 <= t < 16
    ensures IsCubeRoot(PRIMES[t], K[t])
  {
    hide IsCubeRoot;
    match t {
      case 8 => CubeRoot(0x2d807aa98, 23, 0xd807aa98);
      case 9 => CubeRoot(0x312835b01, 29, 0x12835b01);
      case 10 => CubeRoot(0x3243185be, 31, 0x243185be);
      case 11 => CubeRoot(0x3550c7dc3, 37, 0x550c7dc3);
      case 12 => CubeRoot(0x372be5d74, 41, 0x72be5d74);
      case 13 => CubeRoot(0x380deb1fe, 43, 0x80deb1fe);
      case 14 => CubeRoot(0x39bdc06a7, 47, 0x9bdc06a7);
      case _ => CubeRoot(0x3c19bf174, 53, 0xc19bf174);
    }
  }

  lemma CubeRootsFrom16(t: nat)
    requires 16 <= t < 24
    ensures IsCubeRoot(PRIMES[t], K[t])
  {
    hide IsCubeRoot;
    match t {
      case 16 => CubeRoot(0x3e49b69c1, 59, 0xe49b69c1);
      case 17 => CubeRoot(0x3efbe4786, 61, 0xefbe4786);
      case 18 => CubeRoot(0x40fc19dc6, 67, 0x0fc19dc6);
      case 19 => CubeRoot(0x4240ca1cc, 71, 0x240ca1cc);
      case 20 => CubeRoot(0x42de92c6f, 73, 0x2de92c6f);
      case 21 => CubeRoot(0x44a7484aa, 79, 0x4a7484aa);
      case 22 => CubeRoot(0x45cb0a9dc, 83, 0x5cb0a9dc);
      case _ => CubeRoot(0x476f988da, 89, 0x76f988da);
    }
  }

  lemma CubeRootsFrom24(t: nat)
    requires 24 <= t < 32
    ensures IsCubeRoot(PRIMES[t], K[t])
  {
    hide IsCubeRoot;
    match t {
      case 24 => CubeRoot(0x4983e5152, 97, 0x983e5152);
      case 25 => CubeRoot(0x4a831c66d, 101, 0xa831c66d);
      case 26 => CubeRoot(0x4b00327c8, 103, 0xb00327c8);
      case 27 => CubeRoot(0x4bf597fc7, 107, 0xbf597fc7);
      case 28 => CubeRoot(0x4c6e00bf3, 109, 0xc6e00bf3);
      case 29 => CubeRoot(0x4d5a79147, 113, 0xd5a79147);
      case 30 => CubeRoot(0x506ca6351, 127, 0x06ca6351);
      case _ => CubeRoot(0x514292967, 131, 0x14292967);
    }
  }

  lemma CubeRootsFrom32(t: nat)
    requires 32 <= t < 40
    ensures IsCubeRoot(PRIMES[t], K[t])
  {
    hide IsCubeRoot;
    match t {
      case 32 => CubeRoot(0x527b70a85, 137, 0x27b70a85);
      case 33 => CubeRoot(0x52e1b2138, 139, 0x2e1b2138);
      case 34 => CubeRoot(0x54d2c6dfc, 149, 0x4d2c6dfc);
      case 35 => CubeRoot(0x553380d13, 151, 0x53380d13);
      case 36 => CubeRoot(0x5650a7354, 157, 0x650a7354);
      case 37 => CubeRoot(0x5766a0abb, 163, 0x766a0abb);
      case 38 => CubeRoot(0x581c2c92e, 167, 0x81c2c92e);
      case _ => CubeRoot(0x592722c85, 173, 0x92722c85);
    }
  }

  lemma CubeRootsFrom40(t: nat)
    requires 40 <= t < 48
    ensures IsCubeRoot(PRIMES[t], K[t])
  {
    hide IsCubeRoot;
    match t {
      case 40 => CubeRoot(0x5a2bfe8a1, 179, 0xa2bfe8a1);
      case 41 => CubeRoot(0x5a81a664b, 181, 0xa81a664b);
      case 42 => CubeRoot(0x5c24b8b70, 191, 0xc24b8b70);
      case 43 => CubeRoot(0x5c76c51a3, 193, 0xc76c51a3);
      case 44 => CubeRoot(0x5d192e819, 197, 0xd192e819);
      case 45 => CubeRoot(0x5d6990624, 199, 0xd6990624);
      case 46 => CubeRoot(0x5f40e3585, 211, 0xf40e3585);
      case _ => CubeRoot(0x6106aa070, 223, 0x106aa070);
    }
  }

  lemma CubeRootsFrom48(t: nat)
    requires 48 <= t < 56
    ensures IsCubeRoot(PRIMES[t], K[t])
  {
    hide IsCubeRoot;
    match t {
      case 48 => CubeRoot(0x619a4c116, 227, 0x19a4c116);
      case 49 => CubeRoot(0x61e376c08, 229, 0x1e376c08);
      case 50 => CubeRoot(0x62748774c, 233, 0x2748774c);
      case 51 => CubeRoot(0x634b0bcb5, 239, 0x34b0bcb5);
      case 52 => CubeRoot(0x6391c0cb3, 241, 0x391c0cb3);
      case 53 => CubeRoot(0x64ed8aa4a, 251, 0x4ed8aa4a);
      case 54 => CubeRoot(0x65b9cca4f, 257, 0x5b9cca4f);
      case _ => CubeRoot(0x6682e6ff3, 263, 0x682e6ff3);
    }
  }

  lemma CubeRootsFrom56(t: nat)
    requires 56 <= t < 64
    ensures IsCubeRoot(PRIMES[t], K[t])
  {
    hide IsCubeRoot;
    match t {
      case 56 => CubeRoot(0x6748f82ee, 269, 0x748f82ee);
      case 57 => CubeRoot(0x678a5636f, 271, 0x78a5636f);
      case 58 => CubeRoot(0x684c87814, 277, 0x84c87814);
      case 59 => CubeRoot(0x68cc70208, 281, 0x8cc70208);
      case 60 => CubeRoot(0x690befffa, 283, 0x90befffa);
      case 61 => CubeRoot(0x6a4506ceb, 293, 0xa4506ceb);
      case 62 => CubeRoot(0x6bef9a3f7, 307, 0xbef9a3f7);
      case _ => CubeRoot(0x6c67178f2, 311, 0xc67178f2);
    }
  }

  /** The constant of a round is made of the first 32 bits of the fractional part of the cube
      root of a prime. */
  lemma ConstantsAreCubeRoots(t: nat)
    requires t < 64
    ensures IsCubeRoot(PRIMES[t], Constant(t))
  {
    hide IsCubeRoot, K;
    if t < 8 {
      CubeRootsFrom0(t);
    } else if t < 16 {
      CubeRootsFrom8(t);
    } else if t < 24 {
      CubeRootsFrom16(t);
    } else if t < 32 {
      CubeRootsFrom24(t);
    } else if t < 40 {
      CubeRootsFrom32(t);
    } else if t < 48 {
      CubeRootsFrom40(t);
    } else if t < 56 {
      CubeRootsFrom48(t);
    } else {
      CubeRootsFrom56(t);
    }
  }

  predicate IsSquare(x: nat, p: nat) {
    x * x <= p * 0x1_0000_0000_0000_0000 < (x + 1) * (x + 1)
  }

  /** The first 32 bits of the fractional part of the square root of `p`. */
  ghost predicate IsSquareRoot(p: nat, bits: Word) {
    exists x: nat :: x % WORDS == bits && IsSquare(x, p)
  }

  lemma SquareRoot(x: nat, p: nat, bits: Word)
    requires x % WORDS == bits && IsSquare(x, p)
    ensures IsSquareRoot(p, bits)
  {
  }

  lemma FirstRoots0()
    ensures IsSquareRoot(PRIMES[0], INITIAL.a) && IsSquareRoot(PRIMES[1], INITIAL.b)
  {
    hide IsSquareRoot;
    SquareRoot(0x16a09e667, 2, 0x6a09e667);
    SquareRoot(0x1bb67ae85, 3, 0xbb67ae85);
  }

  lemma FirstRoots1()
    ensures IsSquareRoot(PRIMES[2], INITIAL.c) && IsSquareRoot(PRIMES[3], INITIAL.d)
  {
    hide IsSquareRoot;
    SquareRoot(0x23c6ef372, 5, 0x3c6ef372);
    SquareRoot(0x2a54ff53a, 7, 0xa54ff53a);
  }

  lemma FirstRoots2()
    ensures IsSquareRoot(PRIMES[4], INITIAL.e) && IsSquareRoot(PRIMES[5], INITIAL.f)
  {
    hide IsSquareRoot;
    SquareRoot(0x3510e527f, 11, 0x510e527f);
    SquareRoot(0x39b05688c, 13, 0x9b05688c);
  }

  lemma FirstRoots3()
    ensures IsSquareRoot(PRIMES[6], INITIAL.g) && IsSquareRoot(PRIMES[7], INITIAL.h)
  {
    hide IsSquareRoot;
    SquareRoot(0x41f83d9ab, 17, 0x1f83d9ab);
    SquareRoot(0x45be0cd19, 19, 0x5be0cd19);
  }

  /** So is the initial hash value, of the square roots of the first eight primes. */
  lemma InitialIsSquareRoots()
    ensures IsSquareRoot(PRIMES[0], INITIAL.a) && IsSquareRoot(PRIMES[1], INITIAL.b)
    ensures IsSquareRoot(PRIMES[2], INITIAL.c) && IsSquareRoot(PRIMES[3], INITIAL.d)
    ensures IsSquareRoot(PRIMES[4], INITIAL.e) && IsSquareRoot(PRIMES[5], INITIAL.f)
    ensures IsSquareRoot(PRIMES[6], INITIAL.g) && IsSquareRoot(PRIMES[7], INITIAL.h)
  {
    hide IsSquareRoot, INITIAL;
    FirstRoots0();
    FirstRoots1();
    FirstRoots2();
    FirstRoots3();
  }
}
