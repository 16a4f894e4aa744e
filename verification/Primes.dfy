/** The first 64 primes, whose roots give the constants of SHA-256. */
module Primes {

  const PRIMES: seq<nat> :=
    [2, 3, 5, 7, 11, 13, 17, 19, 23, 29, 31, 37, 41, 43, 47, 53] +
    [59, 61, 67, 71, 73, 79, 83, 89, 97, 101, 103, 107, 109, 113, 127, 131] +
    [137, 139, 149, 151, 157, 163, 167, 173, 179, 181, 191, 193, 197, 199, 211, 223] +
    [227, 229, 233, 239, 241, 251, 257, 263, 269, 271, 277, 281, 283, 293, 307, 311]

  predicate Factors(n: nat, a: nat, b: nat) {
    a >= 2 && b >= 2 && n == a * b
  }

  ghost predicate IsPrime(n: nat) {
    n >= 2 && forall a, b :: !Factors(n, a, b)
  }

  /** No prime below 19 divides it. */
  predicate Rough(n: nat) {
    n % 2 != 0 && n % 3 != 0 && n % 5 != 0 && n % 7 != 0 && n % 11 != 0 && n % 13 != 0 && n % 17 != 0
  }

  lemma Multiple2(n: nat, m: nat)
    requires n == 2 * m
    ensures !Rough(n)
  {
    assert n % 2 == 0;
  }

  lemma Multiple3(n: nat, m: nat)
    requires n == 3 * m
    ensures !Rough(n)
  {
    assert n % 3 == 0;
  }

  lemma Multiple5(n: nat, m: nat)
    requires n == 5 * m
    ensures !Rough(n)
  {
    assert n % 5 == 0;
  }

  lemma Multiple7(n: nat, m: nat)
    requires n == 7 * m
    ensures !Rough(n)
  {
    assert n % 7 == 0;
  }

  lemma Multiple11(n: nat, m: nat)
    requires n == 11 * m
    ensures !Rough(n)
  {
    assert n % 11 == 0;
  }

  lemma Multiple13(n: nat, m: nat)
    requires n == 13 * m
    ensures !Rough(n)
  {
    assert n % 13 == 0;
  }

  lemma Multiple17(n: nat, m: nat)
    requires n == 17 * m
    ensures !Rough(n)
  {
    assert n % 17 == 0;
  }

  lemma SmallFactor(n: nat, a: nat, b: nat)
    requires a < 19 && Factors(n, a, b)
    ensures !Rough(n)
  {
    hide Rough;
    match a {
      case 2 => Multiple2(n, b);
      case 3 => Multiple3(n, b);
      case 4 => Multiple2(n, 2 * b);
      case 5 => Multiple5(n, b);
      case 6 => Multiple2(n, 3 * b);
      case 7 => Multiple7(n, b);
      case 8 => Multiple2(n, 4 * b);
      case 9 => Multiple3(n, 3 * b);
      case 10 => Multiple2(n, 5 * b);
      case 11 => Multiple11(n, b);
      case 12 => Multiple2(n, 6 * b);
      case 13 => Multiple13(n, b);
      case 14 => Multiple2(n, 7 * b);
      case 15 => Multiple3(n, 5 * b);
      case 16 => Multiple2(n, 8 * b);
      case 17 => Multiple17(n, b);
      case _ => Multiple2(n, 9 * b);
    }
  }

  lemma LargeProduct(a: nat, b: nat)
    requires a >= 19 && b >= 19
    ensures a * b >= 361
  {
  }

  lemma RoughIsPrime(n: nat)
    requires 2 <= n < 361 && Rough(n)
    ensures IsPrime(n)
  {
    hide Rough;
    forall a, b ensures !Factors(n, a, b) {
      if Factors(n, a, b) {
        if a < 19 {
          SmallFactor(n, a, b);
        } else if b < 19 {
          SmallFactor(n, b, a);
        } else {
          LargeProduct(a, b);
        }
      }
    }
  }

  lemma NotDivided(n: nat, p: nat)
    requires IsPrime(n) && 2 <= p < n
    ensures n % p != 0
  {
    if n % p == 0 {
      var q := n / p;
      assert n == p * q;
      AtMostOnce(p, q);
      assert Factors(n, p, q);
    }
  }

  lemma AtMostOnce(p: nat, q: nat)
    ensures p * q > p ==> q >= 2
  {
  }

  lemma PrimeIsRough(n: nat)
    requires IsPrime(n) && n > 17
    ensures Rough(n)
  {
    NotDivided(n, 2);
    NotDivided(n, 3);
    NotDivided(n, 5);
    NotDivided(n, 7);
    NotDivided(n, 11);
    NotDivided(n, 13);
    NotDivided(n, 17);
    hide IsPrime;
  }

  lemma SameRemainders(n: nat, k: nat, r: nat)
    requires n == 30 * k + r
    ensures n % 2 == r % 2 && n % 3 == r % 3 && n % 5 == r % 5
  {
    SameBy2(n, 15 * k, r);
    SameBy3(n, 10 * k, r);
    SameBy5(n, 6 * k, r);
  }

  lemma SameBy2(n: nat, m: nat, r: nat)
    requires n == 2 * m + r
    ensures n % 2 == r % 2
  {
  }

  lemma SameBy3(n: nat, m: nat, r: nat)
    requires n == 3 * m + r
    ensures n % 3 == r % 3
  {
  }

  lemma SameBy5(n: nat, m: nat, r: nat)
    requires n == 5 * m + r
    ensures n % 5 == r % 5
  {
  }

  /** A number without the factors 2, 3 and 5 has one of eight remainders by 30. */
  lemma EightRemainders(r: nat)
    requires r < 30 && r % 2 != 0 && r % 3 != 0 && r % 5 != 0
    ensures r in {1, 7, 11, 13, 17, 19, 23, 29}
  {
  }

  lemma Remainders(n: nat)
    requires Rough(n)
    ensures n - n / 30 * 30 in {1, 7, 11, 13, 17, 19, 23, 29}
  {
    var k := n / 30;
    var r := n - 30 * k;
    SameRemainders(n, k, r);
    assert r % 2 != 0 && r % 3 != 0 && r % 5 != 0;
    hide Rough;
    EightRemainders(r);
  }

  lemma RoughIn0(n: nat)
    requires 18 <= n < 120 && Rough(n)
    ensures n in PRIMES
  {
    Remainders(n);
    match n / 30 {
      case 0 =>
        assert PRIMES[7] == 19 && PRIMES[8] == 23 && PRIMES[9] == 29;
      case 1 =>
        assert !Rough(49);
        assert PRIMES[10] == 31 && PRIMES[11] == 37 && PRIMES[12] == 41 && PRIMES[13] == 43 && PRIMES[14] == 47
          && PRIMES[15] == 53 && PRIMES[16] == 59;
      case 2 =>
        assert !Rough(77);
        assert PRIMES[17] == 61 && PRIMES[18] == 67 && PRIMES[19] == 71 && PRIMES[20] == 73 && PRIMES[21] == 79
          && PRIMES[22] == 83 && PRIMES[23] == 89;
      case _ =>
        assert !Rough(91) && !Rough(119);
        assert PRIMES[24] == 97 && PRIMES[25] == 101 && PRIMES[26] == 103 && PRIMES[27] == 107 && PRIMES[28] ==
          109 && PRIMES[29] == 113;
    }
  }

  lemma RoughIn1(n: nat)
    requires 120 <= n < 240 && Rough(n)
    ensures n in PRIMES
  {
    Remainders(n);
    match n / 30 {
      case 4 =>
        assert !Rough(121) && !Rough(133) && !Rough(143);
        assert PRIMES[30] == 127 && PRIMES[31] == 131 && PRIMES[32] == 137 && PRIMES[33] == 139 && PRIMES[34] ==
          149;
      case 5 =>
        assert !Rough(161) && !Rough(169);
        assert PRIMES[35] == 151 && PRIMES[36] == 157 && PRIMES[37] == 163 && PRIMES[38] == 167 && PRIMES[39] ==
          173 && PRIMES[40] == 179;
      case 6 =>
        assert !Rough(187) && !Rough(203) && !Rough(209);
        assert PRIMES[41] == 181 && PRIMES[42] == 191 && PRIMES[43] == 193 && PRIMES[44] == 197 && PRIMES[45] ==
          199;
      case _ =>
        assert !Rough(217) && !Rough(221);
        assert PRIMES[46] == 211 && PRIMES[47] == 223 && PRIMES[48] == 227 && PRIMES[49] == 229 && PRIMES[50] ==
          233 && PRIMES[51] == 239;
    }
  }

  lemma RoughIn2(n: nat)
    requires 240 <= n < 312 && Rough(n)
    ensures n in PRIMES
  {
    Remainders(n);
    match n / 30 {
      case 8 =>
        assert !Rough(247) && !Rough(253) && !Rough(259);
        assert PRIMES[52] == 241 && PRIMES[53] == 251 && PRIMES[54] == 257 && PRIMES[55] == 263 && PRIMES[56] ==
          269;
      case 9 =>
        assert !Rough(287) && !Rough(289) && !Rough(299);
        assert PRIMES[57] == 271 && PRIMES[58] == 277 && PRIMES[59] == 281 && PRIMES[60] == 283 && PRIMES[61] ==
          293;
      case _ =>
        assert !Rough(301);
        assert PRIMES[62] == 307 && PRIMES[63] == 311;
    }
  }

  lemma ListedIsPrime(t: nat)
    requires t < 64
    ensures IsPrime(PRIMES[t])
  {
    hide IsPrime;
    if t < 7 {
      SmallPrime(PRIMES[t]);
    } else {
      ListedIsRough(t);
      RoughIsPrime(PRIMES[t]);
    }
  }

  lemma SmallPrime(n: nat)
    requires n in {2, 3, 5, 7, 11, 13, 17}
    ensures IsPrime(n)
  {
    forall a, b ensures !Factors(n, a, b) {
      if Factors(n, a, b) {
        assert a * b >= 2 * b && a * b >= 2 * a;
        SmallProduct(n, a, b);
      }
    }
  }

  lemma SmallProduct(n: nat, a: nat, b: nat)
    requires n in {2, 3, 5, 7, 11, 13, 17} && 2 <= a <= 8 && 2 <= b <= 8
    ensures n != a * b
  {
    match a {
      case 2 => case 3 => case 4 => case 5 => case 6 => case 7 => case _ =>
    }
  }

  lemma ListedIsRough0(t: nat)
    requires 7 <= t < 16
    ensures Rough(PRIMES[t]) && PRIMES[t] < 361
  {
    assert Rough(19) && Rough(23) && Rough(29) && Rough(31) && Rough(37) && Rough(41) && Rough(43) && Rough(47)
      && Rough(53);
  }

  lemma ListedIsRough1(t: nat)
    requires 16 <= t < 32
    ensures Rough(PRIMES[t]) && PRIMES[t] < 361
  {
    assert Rough(59) && Rough(61) && Rough(67) && Rough(71) && Rough(73) && Rough(79) && Rough(83) && Rough(89)
      && Rough(97) && Rough(101) && Rough(103) && Rough(107) && Rough(109) && Rough(113) && Rough(127) &&
      Rough(131);
  }

  lemma ListedIsRough2(t: nat)
    requires 32 <= t < 48
    ensures Rough(PRIMES[t]) && PRIMES[t] < 361
  {
    assert Rough(137) && Rough(139) && Rough(149) && Rough(151) && Rough(157) && Rough(163) && Rough(167) &&
      Rough(173) && Rough(179) && Rough(181) && Rough(191) && Rough(193) && Rough(197) && Rough(199) &&
      Rough(211) && Rough(223);
  }

  lemma ListedIsRough3(t: nat)
    requires 48 <= t < 64
    ensures Rough(PRIMES[t]) && PRIMES[t] < 361
  {
    assert Rough(227) && Rough(229) && Rough(233) && Rough(239) && Rough(241) && Rough(251) && Rough(257) &&
      Rough(263) && Rough(269) && Rough(271) && Rough(277) && Rough(281) && Rough(283) && Rough(293) &&
      Rough(307) && Rough(311);
  }

  lemma ListedIsRough(t: nat)
    requires 7 <= t < 64
    ensures Rough(PRIMES[t]) && PRIMES[t] < 361
  {
    hide Rough;
    if t < 16 {
      ListedIsRough0(t);
    } else if t < 32 {
      ListedIsRough1(t);
    } else if t < 48 {
      ListedIsRough2(t);
    } else {
      ListedIsRough3(t);
    }
  }

  lemma PrimeIsListed(n: nat)
    requires n <= 311 && IsPrime(n)
    ensures n in PRIMES
  {
    if n > 17 {
      PrimeIsRough(n);
      hide Rough, IsPrime;
      if n < 120 {
        RoughIn0(n);
      } else if n < 240 {
        RoughIn1(n);
      } else {
        RoughIn2(n);
      }
    } else if n !in PRIMES {
      SmallIsListed(n);
    }
  }

  lemma SmallIsListed(n: nat)
    requires n <= 17 && n !in PRIMES
    ensures !IsPrime(n)
  {
    assert PRIMES[0] == 2 && PRIMES[1] == 3 && PRIMES[2] == 5 && PRIMES[3] == 7 && PRIMES[4] == 11 && PRIMES[5] == 13 && PRIMES[6] == 17;
    assert n < 2 || n in {4, 6, 8, 9, 10, 12, 14, 15, 16};
    if n in {9, 15} {
      assert Factors(n, 3, n / 3);
    } else if n >= 2 {
      assert Factors(n, 2, n / 2);
    }
  }

  lemma Ascending0(t: nat)
    requires 0 <= t < 16
    ensures PRIMES[t] < PRIMES[t + 1]
  {
  }

  lemma Ascending1(t: nat)
    requires 16 <= t < 32
    ensures PRIMES[t] < PRIMES[t + 1]
  {
  }

  lemma Ascending2(t: nat)
    requires 32 <= t < 48
    ensures PRIMES[t] < PRIMES[t + 1]
  {
  }

  lemma Ascending3(t: nat)
    requires 48 <= t < 63
    ensures PRIMES[t] < PRIMES[t + 1]
  {
  }

  lemma Ascending(t: nat)
    requires t < 63
    ensures PRIMES[t] < PRIMES[t + 1]
  {
    if t < 16 {
      Ascending0(t);
    } else if t < 32 {
      Ascending1(t);
    } else if t < 48 {
      Ascending2(t);
    } else {
      Ascending3(t);
    }
  }

  /** The list holds the first 64 primes, the smallest first. */
  lemma PrimesAreFirst()
    ensures forall t | 0 <= t < 64 :: IsPrime(PRIMES[t])
    ensures forall t | 0 <= t < 63 :: PRIMES[t] < PRIMES[t + 1]
    ensures forall n | n <= 311 && IsPrime(n) :: n in PRIMES
  {
    hide IsPrime;
    forall t | 0 <= t < 64 ensures IsPrime(PRIMES[t]) {
      ListedIsPrime(t);
    }
    forall n | n <= 311 && IsPrime(n) ensures n in PRIMES {
      PrimeIsListed(n);
    }
    forall t | 0 <= t < 63 ensures PRIMES[t] < PRIMES[t + 1] {
      Ascending(t);
    }
  }
}
