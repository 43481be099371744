/** The randomized primality test of Fig10_62: Witness computes a power by repeated
    squaring and looks for nontrivial square roots of 1 on the way. */
module PrimalityTest {
  import opened Basics
  import opened NumberTheory

  /** 0 stands for "definitely composite". */
  function Witness(a: int, i: nat, n: int): int
    requires n >= 1
  {
    if i == 0 then 1 else
    var x := Witness(a, i / 2, n);
    if x == 0 then 0 else
    var y := (x * x) % n;
    if y == 1 && x != 1 && x != n - 1 then 0 else
    if i % 2 != 0 then (a * y) % n else y
  }

  // ---------- What a call computes ----------

  /** x is a square root of 1 modulo n that a prime modulus does not have. */
  predicate NontrivialRoot(x: int, n: int)
    requires n >= 1
  {
    (x * x) % n == 1 && x != 1 && x != n - 1
  }

  /** Some power a^j, with j one of i/2, i/4, ..., 0, is a nontrivial root of 1. */
  predicate RootExposed(a: int, i: nat, n: int)
    requires n >= 1
  {
    i > 0 && (RootExposed(a, i / 2, n) || NontrivialRoot(Pow(a, i / 2) % n, n))
  }

  lemma PowHalves(a: int, i: nat, n: int)
    requires n >= 1 && i > 0
    ensures var x := Pow(a, i / 2) % n;
            var y := (x * x) % n;
            Pow(a, i) % n == if i % 2 != 0 then (a * y) % n else y
  {
    var h := i / 2;
    var p := Pow(a, h);
    PowAdd(a, h, h);
    ModMulCongruent(p % n, p, p % n, p, n);
    ghost var q := p * p;
    assert Pow(a, h + h) == q;
    if i % 2 != 0 {
      assert i == h + h + 1 && Pow(a, i) == a * q;
      ModMulRight(a, q, n);
    } else {
      assert i == h + h;
    }
  }

  lemma ZeroPower(a: int, i: nat, n: int)
    requires n >= 1 && i > 0 && Pow(a, i / 2) % n == 0
    ensures Pow(a, i) % n == 0
  {
    var h := i / 2;
    PowAdd(a, h, i - h);
    DividesProduct(n, Pow(a, h), Pow(a, i - h));
  }

  /** The exact result: 0 when a nontrivial root shows up, and otherwise the modular power. */
  lemma {:induction false} WitnessMeaning(a: int, i: nat, n: int)
    requires n >= 2
    ensures Witness(a, i, n) == if RootExposed(a, i, n) then 0 else Pow(a, i) % n
  {
    if i == 0 {
      DivModUnique(1, n, 0, 1);
    } else {
      var x := Pow(a, i / 2) % n;
      WitnessMeaning(a, i / 2, n);
      if !RootExposed(a, i / 2, n) && x == 0 {
        ZeroPower(a, i, n);
      }
      PowHalves(a, i, n);
    }
  }

  /** i halved e + 1 times leaves an exponent j, with i not yet used up before, and the residue of a^j is a square root
      of 1 other than 1 and -1. */
  ghost predicate RootAt(a: int, i: nat, n: int, e: nat)
    requires n >= 1
  {
    var x := Pow(a, i / (2 * Pow2(e))) % n;
    Pow2(e) <= i && (x * x) % n == 1 && x != 1 && x != n - 1
  }

  lemma {:induction false} RootExposedExactly(a: int, i: nat, n: int)
    requires n >= 1
    ensures RootExposed(a, i, n) <==> exists e: nat :: RootAt(a, i, n, e)
  {
    if i > 0 {
      RootExposedExactly(a, i / 2, n);
      if RootExposed(a, i / 2, n) {
        var e: nat :| RootAt(a, i / 2, n, e);
        RootHalved(a, i, n, e);
      } else if NontrivialRoot(Pow(a, i / 2) % n, n) {
        RootFirst(a, i, n);
      } else {
        forall e: nat ensures !RootAt(a, i, n, e) {
          if e == 0 {
            RootFirst(a, i, n);
          } else {
            RootHalved(a, i, n, e - 1);
          }
        }
      }
    }
  }

  lemma RootFirst(a: int, i: nat, n: int)
    requires n >= 1 && i > 0
    ensures RootAt(a, i, n, 0) <==> NontrivialRoot(Pow(a, i / 2) % n, n)
  {
    assert Pow2(0) == 1;
  }

  lemma RootHalved(a: int, i: nat, n: int, e: nat)
    requires n >= 1
    ensures RootAt(a, i, n, e + 1) <==> RootAt(a, i / 2, n, e)
  {
    var m := 2 * Pow2(e);
    assert Pow2(e + 1) == m;
    HalfFirst(i, m);
  }

  lemma HalfFirst(i: nat, m: nat)
    requires m > 0
    ensures i / 2 / m == i / (2 * m)
  {
    var q, r := i / 2 / m, i / 2 % m;
    assert i / 2 == q * m + r;
    assert i == q * (2 * m) + (2 * r + i % 2);
    DivModUnique(i, 2 * m, q, 2 * r + i % 2);
  }

  // ---------- Primes are never rejected ----------

  lemma {:induction false} PrimeExposesNoRoot(a: int, i: nat, p: int)
    requires IsPrime(p)
    ensures !RootExposed(a, i, p)
  {
    if i > 0 {
      PrimeExposesNoRoot(a, i / 2, p);
      var x := Pow(a, i / 2) % p;
      if (x * x) % p == 1 {
        SquareRootsOfOne(p, x);
      }
    }
  }

  lemma ZeroBase(a: int, i: nat, n: int)
    requires n >= 1 && i > 0 && a % n == 0
    ensures Pow(a, i) % n == 0
  {
    ModMulLeft(a, Pow(a, i - 1), n);
  }

  /** A prime passes the test with exactly the bases it does not divide. */
  lemma PrimePassesExactly(a: int, p: int)
    requires IsPrime(p)
    ensures Witness(a, p - 1, p) == 1 <==> !Divides(p, a)
  {
    WitnessMeaning(a, p - 1, p);
    PrimeExposesNoRoot(a, p - 1, p);
    if Divides(p, a) {
      ZeroBase(a, p - 1, p);
    } else {
      Fermat(a, p);
    }
  }

  /** The prime 2 is the one prime that the base 2 rejects. */
  lemma BaseTwoRejectsTwo(p: int)
    requires IsPrime(p)
    ensures Witness(2, p - 1, p) != 1 <==> p == 2
  {
    PrimePassesExactly(2, p);
    if p > 2 {
      DivModUnique(2, p, 0, 2);
    }
  }

  /** What passing says of any n: a^(n-1) is 1 modulo n, and no nontrivial root was met. */
  lemma PassingMeans(a: int, n: int)
    requires n >= 2
    ensures Witness(a, n - 1, n) == 1 <==> Pow(a, n - 1) % n == 1 && !RootExposed(a, n - 1, n)
  {
    WitnessMeaning(a, n - 1, n);
  }

  // ---------- The trials ----------

  const TRIALS := 5

  /** A rejected number above 3 is composite, whatever bases from 2..n-2 were drawn. */
  lemma RejectionIsProof(n: int, bases: seq<int>, t: int)
    requires n > 3 && 0 <= t < |bases|
    requires Drawn(bases, n)
    requires Witness(bases[t], n - 1, n) != 1
    ensures exists d :: 2 <= d < n && Divides(d, n)
  {
    if IsPrime(n) {
      PrimePassesExactly(bases[t], n);
      DivModUnique(bases[t], n, 0, bases[t]);
      assert false;
    }
  }

  /** The bases are draws from 2..n-2. */
  ghost predicate Drawn(bases: seq<int>, n: int) {
    forall t :: 0 <= t < |bases| ==> 2 <= bases[t] <= n - 2
  }

  // ---------- 64-bit arithmetic ----------

  /** Two's complement truncation of a product to 64 bits. */
  function Wrap64(v: int): (r: int)
    ensures -0x8000_0000_0000_0000 <= r < 0x8000_0000_0000_0000 && (v - r) % 0x1_0000_0000_0000_0000 == 0
  {
    var m := v % 0x1_0000_0000_0000_0000;
    if m >= 0x8000_0000_0000_0000 then m - 0x1_0000_0000_0000_0000 else m
  }

  /** Remainder that takes the sign of the dividend. */
  function Rem(v: int, n: int): (r: int)
    requires n >= 1
    ensures (v - r) % n == 0 && -n < r < n && (v >= 0 ==> r >= 0) && (v <= 0 ==> r <= 0)
  {
    RemDivides(v, n);
    if v >= 0 then v % n else -((-v) % n)
  }

  lemma RemDivides(v: int, n: int)
    requires n >= 1
    ensures (v - v % n) % n == 0 && (v + (-v) % n) % n == 0
  {
    DividesMultiple(n, v / n);
    assert v - v % n == v / n * n;
    DividesMultiple(n, -((-v) / n));
    assert v + (-v) % n == -((-v) / n) * n;
  }

  function Witness64(a: int, i: nat, n: int): int
    requires n >= 1
  {
    if i == 0 then 1 else
    var x := Witness64(a, i / 2, n);
    if x == 0 then 0 else
    var y := Rem(Wrap64(x * x), n);
    if y == 1 && x != 1 && x != n - 1 then 0 else
    if i % 2 != 0 then Rem(Wrap64(a * y), n) else y
  }

  /** The largest modulus for which the square of every residue fits in 63 bits. */
  const MAX_MODULUS := 3037000500

  lemma ProductBound(x: int, y: int, m: int)
    requires 0 <= x <= m && 0 <= y <= m
    ensures 0 <= x * y <= m * m
  {
    MulGrows(x, y, m);
    MulGrows(m, x, m);
    assert m * x == x * m;
  }

  lemma ProductFits(x: int, y: int, m: int)
    requires 0 <= x <= m && 0 <= y <= m && m <= MAX_MODULUS - 1
    ensures 0 <= x * y <= 0x7FFF_FFFF_FFFF_FFFF
    ensures Wrap64(x * y) == x * y
  {
    ProductBound(x, y, m);
    ProductBound(m, m, MAX_MODULUS - 1);
    var p := x * y;
    DivModUnique(p, 0x1_0000_0000_0000_0000, 0, p);
  }

  /** Up to MAX_MODULUS the 64-bit computation never wraps. */
  lemma {:induction false} Witness64Exact(a: int, i: nat, n: int)
    requires 2 <= n <= MAX_MODULUS && 0 <= a < n
    ensures Witness64(a, i, n) == Witness(a, i, n)
    ensures 0 <= Witness(a, i, n) < n
  {
    if i > 0 {
      Witness64Exact(a, i / 2, n);
      var x := Witness(a, i / 2, n);
      ProductFits(x, x, n - 1);
      ProductFits(a, (x * x) % n, n - 1);
    }
  }

  /** For no larger modulus, up to 2^32, does every product fit: the square of n-1 wraps to a negative number,
      and the power (n-1)^2, which is 1 modulo n, comes out as none. */
  lemma LargerModuliWrap(n: int)
    requires MAX_MODULUS < n <= 0x1_0000_0000
    ensures Witness(n - 1, 2, n) == 1 && Witness64(n - 1, 2, n) <= 0
  {
    var x := n - 1;
    var v := x * x;
    ProductBound(MAX_MODULUS, MAX_MODULUS, x);
    ProductBound(x, x, 0xFFFF_FFFF);
    DivModUnique(v, 0x1_0000_0000_0000_0000, 0, v);
    assert Wrap64(v) < 0;
    assert v == (n - 2) * n + 1;
    DivModUnique(v, n, n - 2, 1);
    DivModUnique(x, n, 0, x);
    DivModUnique(1, n, 0, 1);
    OneStep(x, n);
  }

  lemma OneStep(a: int, n: int)
    requires 1 <= a < n && n <= 0x1_0000_0000
    ensures Witness(a, 1, n) == a && Witness64(a, 1, n) == a
  {
    DivModUnique(1, n, 0, 1);
    DivModUnique(a, n, 0, a);
    DivModUnique(1, 0x1_0000_0000_0000_0000, 0, 1);
    DivModUnique(a, 0x1_0000_0000_0000_0000, 0, a);
    var zero := 0;
    assert Witness(a, zero, n) == 1 && Witness64(a, zero, n) == 1;
  }

  // ---------- The loop ----------

  /** In 64 bits, up to MAX_MODULUS, each trial is an exact one. */
  lemma TrialIsExact(n: int, bases: seq<int>, t: int)
    requires 3 < n <= MAX_MODULUS && Drawn(bases, n) && 0 <= t < |bases|
    ensures Witness64(bases[t], n - 1, n) == Witness(bases[t], n - 1, n)
    ensures Witness64(bases[t], n - 1, n) == 1 <==>
            Pow(bases[t], n - 1) % n == 1 && !RootExposed(bases[t], n - 1, n)
    ensures Witness64(bases[t], n - 1, n) != 1 ==> exists d :: 2 <= d < n && Divides(d, n)
  {
    Witness64Exact(bases[t], n - 1, n);
    PassingMeans(bases[t], n);
    if Witness64(bases[t], n - 1, n) != 1 {
      RejectionIsProof(n, bases, t);
    }
  }

  /** bases[t] is the random draw of trial t. Up to MAX_MODULUS no prime above 3 is ever rejected, and what is accepted
      has passed every trial: it satisfies Fermat's congruence for each base and shows no root of 1. */
  method ProbablyPrime(n: int, bases: seq<int>) returns (result: bool)
    requires n >= 1 && |bases| == 5
    ensures result <==> forall t :: 0 <= t < |bases| ==> Witness64(bases[t], n - 1, n) == 1
    ensures 3 < n <= MAX_MODULUS && Drawn(bases, n) && IsPrime(n) ==> result
    ensures 3 < n <= MAX_MODULUS && Drawn(bases, n) && !result ==> exists d :: 2 <= d < n && Divides(d, n)
    ensures 3 < n <= MAX_MODULUS && Drawn(bases, n) && result ==>
              forall t :: 0 <= t < |bases| ==> Pow(bases[t], n - 1) % n == 1 && !RootExposed(bases[t], n - 1, n)
  {
    ghost var exact := 3 < n <= MAX_MODULUS && Drawn(bases, n);
    for counter := 0 to TRIALS
      invariant forall t :: 0 <= t < counter ==> Witness64(bases[t], n - 1, n) == 1
      invariant exact ==>
                  forall t :: 0 <= t < counter ==>
                    Pow(bases[t], n - 1) % n == 1 && !RootExposed(bases[t], n - 1, n)
    {
      if exact {
        TrialIsExact(n, bases, counter);
      }
      if Witness64(bases[counter], n - 1, n) != 1 {
        return false;
      }
    }
    return true;
  }
}
