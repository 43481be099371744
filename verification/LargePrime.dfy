/** A prime above the moduli whose products fit in 64 bits: the test rejects it. */
module LargePrime {
  import opened NumberTheory
  import opened PrimalityTest

  const LARGE := 3221225473   // 3 * 2^30 + 1

  // ---------- It is prime ----------

  lemma SquareOfPower(g: int, e: nat, n: int, x: int)
    requires n > 1 && Pow(g, e) % n == x
    ensures Pow(g, 2 * e) % n == (x * x) % n
  {
    var p := Pow(g, e);
    PowAdd(g, e, e);
    assert e + e == 2 * e;
    ResiduesMultiply(p, p, n);
  }

  function Square(x: int): int {
    (x * x) % LARGE
  }

  /** p is a power function modulo LARGE. */
  ghost predicate Doubling(p: nat -> int) {
    forall e: nat :: Doubles(p, e)
  }

  ghost predicate Doubles(p: nat -> int, e: nat) {
    p(2 * e) == Square(p(e))
  }

  lemma PowIsDoubling(g: int, p: nat -> int)
    requires forall e: nat :: p(e) == Pow(g, e) % LARGE
    ensures Doubling(p)
  {
    forall e: nat ensures Doubles(p, e) {
      SquareOfPower(g, e, LARGE, p(e));
    }
  }

  /** The residues x1..x5 are those of squaring five times. */
  lemma FiveSquares(p: nat -> int, e: nat, x0: int, x1: int, x2: int, x3: int, x4: int, x5: int)
    requires Doubling(p) && p(e) == x0 && Square(x0) == x1 && Square(x1) == x2
    requires Square(x2) == x3 && Square(x3) == x4 && Square(x4) == x5
    ensures p(16 * e) == x4 && p(32 * e) == x5
  {
    assert Doubles(p, e) && Doubles(p, 2 * e) && Doubles(p, 4 * e) && Doubles(p, 8 * e) && Doubles(p, 16 * e);
  }

  lemma SmallPowers(g: int, n: int)
    requires n > 125 && g == 5
    ensures Pow(g, 1) % n == 5 && Pow(g, 3) % n == 125
  {
    var zero: nat := 0;
    assert Pow(g, zero) == 1 && Pow(g, zero + 1) == 5 && Pow(g, zero + 2) == 25 && Pow(g, zero + 3) == 125;
    DivModUnique(5, n, 0, 5);
    DivModUnique(125, n, 0, 125);
  }

  lemma ThirdOfOrder(p: nat -> int)
    requires Doubling(p) && p(1) == 5
    ensures p(1073741824) == 1610563584
  {
    FiveSquares(p, 1, 5, 25, 625, 390625, 1190293394, 2658181409);
    FiveSquares(p, 32, 2658181409, 2609614933, 3182078740, 898048269, 3004042235, 2869428413);
    FiveSquares(p, 1024, 2869428413, 829835748, 784716921, 590197985, 2524259225, 2766529116);
    FiveSquares(p, 32768, 2766529116, 2468311158, 20925706, 1444475235, 2207243129, 2838507500);
    FiveSquares(p, 1048576, 2838507500, 1147292615, 2054098098, 2632611347, 955475771, 1656619387);
    FiveSquares(p, 33554432, 1656619387, 1808672996, 821039136, 814403528, 1610563585, 1610563584);
  }

  lemma HalfOfOrder(p: nat -> int)
    requires Doubling(p) && p(3) == 125
    ensures p(3221225472) == 1 && p(1610612736) == LARGE - 1
  {
    FiveSquares(p, 3, 125, 15625, 244140625, 229807484, 247425463, 1838654099);
    FiveSquares(p, 96, 1838654099, 538601489, 140749519, 3182672916, 448192265, 3009749949);
    FiveSquares(p, 3072, 3009749949, 511777184, 1358427440, 1800384970, 2519378301, 1405588668);
    FiveSquares(p, 98304, 1405588668, 1445148504, 1734477367, 211283056, 1168849724, 1855261384);
    FiveSquares(p, 3145728, 1855261384, 764652596, 1958494276, 1292405718, 651814490, 66931328);
    FiveSquares(p, 100663296, 66931328, 2526611335, 1031213943, 1013946479, 3221225472, 1);
  }

  /** The prime factors of 3 * 2^k are 2 and 3. */
  lemma {:induction false} PrimeFactors(q: int, k: nat)
    requires IsPrime(q) && Divides(q, 3 * Pow(2, k))
    ensures q == 2 || q == 3
  {
    TrialPrimeIsPrime(2);
    TrialPrimeIsPrime(3);
    if k == 0 {
      DividesAtMost(q, 3);
    } else {
      assert 3 * Pow(2, k) == 2 * (3 * Pow(2, k - 1));
      Euclid(q, 2, 3 * Pow(2, k - 1));
      if Divides(q, 2) {
        DividesAtMost(q, 2);
      } else {
        PrimeFactors(q, k - 1);
      }
    }
  }

  lemma DividesAtMost(q: int, m: int)
    requires q > 1 && m > 0 && Divides(q, m)
    ensures q <= m
  {
    assert m == (m / q) * q;
    MulBound(m / q, q);
  }

  lemma LargeFactors(q: int, n: int)
    requires IsPrime(q) && n == LARGE && Divides(q, n - 1)
    ensures q == 2 || q == 3
  {
    var k := 30;
    PowersOfTwo(k);
    PrimeFactors(q, k);
  }

  lemma PowersOfTwo(k: nat)
    requires k == 30
    ensures Pow(2, k) == 1073741824
  {
    PowAdd(2, 5, 5);
    PowAdd(2, 10, 10);
    PowAdd(2, 20, 10);
  }

  /** 5 generates all residues. */
  lemma LargeCertificate(g: int, n: int)
    requires g == 5 && n == LARGE
    ensures OrderCertificate(g, n - 1, n)
  {
    var p := (e: nat) => Pow(g, e) % LARGE;
    PowIsDoubling(g, p);
    SmallPowers(g, n);
    PowersOfFive(p);
    forall q: int | IsPrime(q) && Divides(q, n - 1) ensures Pow(g, (n - 1) / q) % n != 1 {
      LargeFactors(q, n);
      assert p((LARGE - 1) / q) != 1;
    }
  }

  lemma PowersOfFive(p: nat -> int)
    requires Doubling(p) && p(1) == 5 && p(3) == 125
    ensures p((LARGE - 1) / 2) != 1 && p((LARGE - 1) / 3) != 1 && p(LARGE - 1) == 1
  {
    ThirdOfOrder(p);
    HalfOfOrder(p);
  }

  lemma LargeIsPrime(n: int)
    requires n == LARGE
    ensures IsPrime(n)
  {
    LargeCertificate(5, n);
    GeneratorMakesPrime(5, n);
  }

  // ---------- The 64-bit test rejects it ----------

  /** Squaring x and reducing it leaves y; k and q are what wrapping and reducing take off. */
  predicate SquareStep(x: int, k: int, q: int, y: int, n: int) {
    var w := x * x - k * 0x1_0000_0000_0000_0000;
    -0x8000_0000_0000_0000 <= w < 0x8000_0000_0000_0000 && w == q * n + y && -n < y < n &&
    if w >= 0 then y >= 0 else y <= 0
  }

  lemma SquareReduced(x: int, k: int, q: int, y: int, n: int)
    requires n >= 1 && SquareStep(x, k, q, y, n)
    ensures Rem(Wrap64(x * x), n) == y
  {
    var w := x * x - k * 0x1_0000_0000_0000_0000;
    if w >= 0 {
      DivModUnique(x * x, 0x1_0000_0000_0000_0000, k, w);
      DivModUnique(w, n, q, y);
    } else {
      DivModUnique(x * x, 0x1_0000_0000_0000_0000, k - 1, w + 0x1_0000_0000_0000_0000);
      assert -w == (-q) * n + (-y);
      DivModUnique(-w, n, -q, -y);
    }
  }

  /** One level of the recursion at an even exponent. */
  lemma Doubled(i: nat, x: int, k: int, q: int, y: int, n: int) returns (j: nat)
    requires n >= 1 && i > 0 && Witness64(2, i, n) == x != 0 && SquareStep(x, k, q, y, n) && y != 1
    ensures j == 2 * i && Witness64(2, j, n) == y
  {
    j := 2 * i;
    SquareReduced(x, k, q, y, n);
  }

  lemma FirstSteps(n: int) returns (i: nat)
    requires n == LARGE
    ensures i == 3 && Witness64(2, i, n) == 8
  {
    var zero: nat := 0;
    assert Witness64(2, zero, n) == 1;
    SquareReduced(1, 0, 0, 1, n);
    SquareReduced(2, 0, 0, 4, n);
    Small(2, n);
    Small(8, n);
    assert Witness64(2, zero + 1, n) == 2;
    i := 3;
  }

  lemma Small(v: int, n: int)
    requires 0 <= v < n && n == LARGE
    ensures Rem(Wrap64(v), n) == v
  {
    DivModUnique(v, 0x1_0000_0000_0000_0000, 0, v);
    DivModUnique(v, n, 0, v);
  }

  lemma Steps1(i: nat, n: int) returns (j: nat)
    requires n == LARGE && i > 0 && Witness64(2, i, n) == 8
    ensures j == 64 * i && Witness64(2, j, n) == 2514234977
  {
    j := Doubled(i, 8, 0, 0, 64, n);
    j := Doubled(j, 64, 0, 0, 4096, n);
    j := Doubled(j, 4096, 0, 0, 16777216, n);
    j := Doubled(j, 16777216, 0, 87381, 1073654443, n);
    j := Doubled(j, 1073654443, 0, 357855689, 1908874352, n);
    j := Doubled(j, 1908874352, 0, 1131184799, 2514234977, n);
  }

  lemma Steps2(i: nat, n: int) returns (j: nat)
    requires n == LARGE && i > 0 && Witness64(2, i, n) == 2514234977
    ensures j == 64 * i && Witness64(2, j, n) == 2446784293
  {
    j := Doubled(i, 2514234977, 0, 1962413861, 1948709276, n);
    j := Doubled(j, 1948709276, 0, 1178889175, 2014489401, n);
    j := Doubled(j, 2014489401, 0, 1259821015, 1802623706, n);
    j := Doubled(j, 1802623706, 0, 1008762737, 795574835, n);
    j := Doubled(j, 795574835, 0, 196490225, 119775800, n);
    j := Doubled(j, 119775800, 0, 4453659, 2446784293, n);
  }

  lemma Steps3(i: nat, n: int) returns (j: nat)
    requires n == LARGE && i > 0 && Witness64(2, i, n) == 2446784293
    ensures j == 64 * i && Witness64(2, j, n) == 251511054
  {
    j := Doubled(i, 2446784293, 0, 1858532855, 1538094434, n);
    j := Doubled(j, 1538094434, 0, 734420644, 1551915744, n);
    j := Doubled(j, 1551915744, 0, 747678949, 330405659, n);
    j := Doubled(j, 330405659, 0, 33890176, 1283571033, n);
    j := Doubled(j, 1283571033, 0, 511468262, 2571249163, n);
    j := Doubled(j, 2571249163, 0, 2052424555, 251511054, n);
  }

  lemma Steps4(i: nat, n: int) returns (j: nat)
    requires n == LARGE && i > 0 && Witness64(2, i, n) == 251511054
    ensures j == 64 * i && Witness64(2, j, n) == 2526611335
  {
    j := Doubled(i, 251511054, 0, 19637808, 2920707732, n);
    j := Doubled(j, 2920707732, 0, 2648226188, 713296900, n);
    j := Doubled(j, 713296900, 0, 157949970, 726024190, n);
    j := Doubled(j, 726024190, 0, 163636829, 2569410983, n);
    j := Doubled(j, 2569410983, 0, 2049491057, 66931328, n);
    j := Doubled(j, 66931328, 0, 1390713, 2526611335, n);
  }

  lemma Steps5(i: nat, n: int) returns (j: nat)
    requires n == LARGE && i > 0 && Witness64(2, i, n) == 2526611335
    ensures j == 64 * i && Witness64(2, j, n) == 2406222534
  {
    j := Doubled(i, 2526611335, 0, 1981781434, 1031213943, n);
    j := Doubled(j, 1031213943, 0, 330123490, 1013946479, n);
    j := Doubled(j, 1013946479, 0, 319160353, 3221225472, n);
    j := Doubled(j, 3221225472, 1, -2505397588, -1789569708, n);
    j := Doubled(j, -1789569708, 0, 994205393, 2465629375, n);
    j := Doubled(j, 2465629375, 0, 1887271867, 2406222534, n);
  }

  /** A prime above the bound is rejected by the base 2, which is one of those drawn. */
  lemma LargePrimeRejected(n: int)
    requires n == LARGE
    ensures IsPrime(n) && MAX_MODULUS < n && Witness(2, n - 1, n) == 1 && Witness64(2, n - 1, n) == 2406222534
  {
    LargeIsPrime(n);
    BaseTwoRejectsTwo(n);
    var i := FirstSteps(n);
    i := Steps1(i, n);
    i := Steps2(i, n);
    i := Steps3(i, n);
    i := Steps4(i, n);
    i := Steps5(i, n);
  }

  /** The loop at this prime, when one of the draws is 2. */
  method LargeIsRejected(n: int, bases: seq<int>) returns (result: bool)
    requires n == LARGE && |bases| == TRIALS && Drawn(bases, n) && 2 in bases
    ensures IsPrime(n) && !result
  {
    LargePrimeRejected(n);
    result := ProbablyPrime(n, bases);
  }
}
