/** Elementary number theory on which the prime-sized hash table, the randomized
    primality test and the random number generator rest. */
module NumberTheory {
  import opened Basics

  // ---------- Quotients and remainders ----------

  lemma MulBound(d: int, n: int)
    requires n > 0
    ensures d >= 1 ==> d * n >= n
    ensures d <= -1 ==> d * n <= -n
  {}

  /** The quotient and the remainder of a division are unique. */
  lemma DivModUnique(a: int, n: int, q: int, r: int)
    requires 0 <= r < n && a == q * n + r
    ensures a / n == q && a % n == r
  {
    var d := q - a / n;
    assert d * n == a % n - r by {
      assert a == n * (a / n) + a % n;
      assert d * n == q * n - (a / n) * n;
    }
    MulBound(d, n);
  }

  /** Adding a multiple of the modulus changes no remainder. */
  lemma ModAddMultiple(a: int, k: int, n: int)
    requires n > 0
    ensures (a + k * n) % n == a % n
  {
    assert a == (a / n) * n + a % n;
    assert (a / n + k) * n == (a / n) * n + k * n;
    DivModUnique(a + k * n, n, a / n + k, a % n);
  }

  /** Two numbers with the same remainder differ by a multiple of the modulus, and conversely. */
  lemma ModEqual(a: int, b: int, n: int)
    requires n > 0
    ensures a % n == b % n <==> (a - b) % n == 0
  {
    var k := (a - b) / n;
    assert a - b == k * n + (a - b) % n;
    if (a - b) % n == 0 {
      ModAddMultiple(b, k, n);
    }
    if a % n == b % n {
      assert a - b == (a / n - b / n) * n by {
        assert a == (a / n) * n + a % n;
        assert b == (b / n) * n + b % n;
        assert (a / n - b / n) * n == (a / n) * n - (b / n) * n;
      }
      DivModUnique(a - b, n, a / n - b / n, 0);
    }
  }

  /** A factor may be reduced before a product is. */
  lemma ModMulLeft(a: int, b: int, n: int)
    requires n > 0
    ensures (a % n * b) % n == (a * b) % n
  {
    var q := a / n;
    assert a * b == a % n * b + (q * b) * n by {
      assert a == q * n + a % n;
      assert (q * n + a % n) * b == (q * n) * b + a % n * b;
      assert (q * n) * b == (q * b) * n;
    }
    ModAddMultiple(a % n * b, q * b, n);
  }

  lemma ModMulRight(a: int, b: int, n: int)
    requires n > 0
    ensures (a * (b % n)) % n == (a * b) % n
  {
    ModMulLeft(b, a, n);
    assert a * (b % n) == b % n * a && a * b == b * a;
  }

  /** Congruent factors may replace each other in a product. */
  lemma ModMulCongruent(a: int, a': int, b: int, b': int, n: int)
    requires n > 0 && a % n == a' % n && b % n == b' % n
    ensures (a * b) % n == (a' * b') % n
  {
    ModMulLeft(a, b, n);
    ModMulLeft(a', b, n);
    ModMulRight(a', b, n);
    ModMulRight(a', b', n);
  }

  // ---------- Divisibility and primes ----------

  predicate Divides(d: int, n: int)
    requires d > 0
  {
    n % d == 0
  }

  predicate IsPrime(n: int) {
    2 <= n && forall d :: 2 <= d < n ==> !Divides(d, n)
  }

  lemma DividesMultiple(d: int, k: int)
    requires d > 0
    ensures Divides(d, k * d) && Divides(d, d * k)
  {}

  lemma DividesProduct(d: int, a: int, b: int)
    requires d > 0 && Divides(d, a)
    ensures Divides(d, a * b)
  {
    var q := a / d;
    assert a * b == (q * b) * d;
    DividesMultiple(d, q * b);
  }

  lemma DividesTrans(a: int, b: int, c: int)
    requires a > 0 && b > 0 && Divides(a, b) && Divides(b, c)
    ensures Divides(a, c)
  {
    var p, q := b / a, c / b;
    assert c == q * b && b == p * a;
    assert c == (q * p) * a;
    DividesMultiple(a, q * p);
  }

  lemma DividesCombination(d: int, a: int, b: int, k: int)
    requires d > 0 && Divides(d, a) && Divides(d, b)
    ensures Divides(d, a + k * b)
  {
    var p, q := a / d, b / d;
    assert a == p * d && b == q * d;
    assert a + k * b == (p + k * q) * d;
    DividesMultiple(d, p + k * q);
  }

  /** Every number above one has a prime divisor. */
  lemma HasPrimeDivisor(n: int) returns (p: int)
    requires n >= 2
    ensures 2 <= p <= n && IsPrime(p) && Divides(p, n)
    decreases n
  {
    if IsPrime(n) {
      p := n;
      DivModUnique(n, n, 1, 0);
    } else {
      var d :| 2 <= d < n && Divides(d, n);
      p := HasPrimeDivisor(d);
      DividesTrans(p, d, n);
    }
  }

  function Factorial(n: nat): (r: nat)
    ensures r >= 1
  {
    if n == 0 then 1 else
      assert n * Factorial(n - 1) >= 1;
      n * Factorial(n - 1)
  }

  lemma {:induction false} DividesFactorial(d: int, n: nat)
    requires 1 <= d <= n
    ensures Divides(d, Factorial(n))
  {
    DividesMultiple(n, Factorial(n - 1));
    if d < n {
      DividesFactorial(d, n - 1);
      assert Divides(d, Factorial(n - 1));
      var q := Factorial(n - 1) / d;
      assert n * Factorial(n - 1) == (n * q) * d;
      DividesMultiple(d, n * q);
    }
  }

  /** Euclid: there is a prime at or above any number. */
  lemma PrimesAreUnbounded(n: nat) returns (p: int)
    ensures p >= n && IsPrime(p)
  {
    p := HasPrimeDivisor(Factorial(n) + 1);
    if p < n {
      DividesFactorial(p, n);
      DividesCombination(p, Factorial(n) + 1, Factorial(n), -1);
      assert Divides(p, 1);
      DivModUnique(1, p, 0, 1);
      assert false;
    }
  }

  /** Euclid's lemma for a factor below the prime, descending through remainders. */
  lemma {:induction false} EuclidSmall(p: int, a: int, b: int)
    requires IsPrime(p) && 1 <= a < p && Divides(p, a * b)
    ensures Divides(p, b)
    decreases a
  {
    if a > 1 {
      var q, r := p / a, p % a;
      assert !Divides(a, p);
      assert r == p - q * a;
      assert r * b == b * p + (-q) * (a * b) by {
        assert (p - q * a) * b == p * b - (q * a) * b;
        assert (q * a) * b == q * (a * b);
      }
      DividesMultiple(p, b);
      DividesCombination(p, b * p, a * b, -q);
      EuclidSmall(p, r, b);
    }
  }

  /** Euclid's lemma. */
  lemma Euclid(p: int, a: int, b: int)
    requires IsPrime(p) && Divides(p, a * b)
    ensures Divides(p, a) || Divides(p, b)
  {
    if !Divides(p, a) {
      ModMulLeft(a, b, p);
      EuclidSmall(p, a % p, b);
    }
  }

  /** Modulo a prime, 1 has no square roots other than 1 and -1. */
  lemma SquareRootsOfOne(p: int, x: int)
    requires IsPrime(p) && 0 <= x < p && (x * x) % p == 1
    ensures x == 1 || x == p - 1
  {
    assert x * x - 1 == (x - 1) * (x + 1);
    DivModUnique(1, p, 0, 1);
    ModEqual(x * x, 1, p);
    Euclid(p, x - 1, x + 1);
    if Divides(p, x - 1) {
      MultipleInRange(x - 1, p, -1);
    } else {
      MultipleInRange(x + 1, p, 0);
    }
  }

  /** The only multiples of p in (lo*p, (lo+2)*p) is (lo+1)*p. */
  lemma MultipleInRange(a: int, p: int, lo: int)
    requires p > 0 && Divides(p, a) && lo * p < a < (lo + 2) * p
    ensures a == (lo + 1) * p
  {
    var q := a / p;
    assert a == q * p;
    assert (q - lo - 1) * p == a - lo * p - p;
    MulBound(q - lo - 1, p);
  }

  // ---------- Powers ----------

  function Pow(a: int, k: nat): int {
    if k == 0 then 1 else a * Pow(a, k - 1)
  }

  lemma {:induction false} PowAdd(a: int, i: nat, j: nat)
    ensures Pow(a, i + j) == Pow(a, i) * Pow(a, j)
  {
    if i > 0 {
      PowAdd(a, i - 1, j);
      assert a * (Pow(a, i - 1) * Pow(a, j)) == (a * Pow(a, i - 1)) * Pow(a, j);
    }
  }

  /** A power of a number congruent to one is congruent to one. */
  lemma {:induction false} PowMulOne(a: int, i: nat, k: nat, n: int)
    requires n > 1 && Pow(a, i) % n == 1
    ensures Pow(a, i * k) % n == 1
  {
    if k == 0 {
      assert i * k == 0;
      DivModUnique(1, n, 0, 1);
    } else {
      PowMulOne(a, i, k - 1, n);
      assert i * k == i + i * (k - 1);
      PowAdd(a, i, i * (k - 1));
      DivModUnique(1, n, 0, 1);
      ModMulCongruent(Pow(a, i), 1, Pow(a, i * (k - 1)), 1, n);
    }
  }

  // ---------- Trial division by 3, 5, 7, ... ----------

  /** No odd d >= i with d * d <= n divides n. */
  predicate NoOddDivisor(n: int, i: int)
    requires i >= 3
    decreases n - i
  {
    i * i > n || (SquareBound(i, n); n % i != 0 && NoOddDivisor(n, i + 2))
  }

  lemma SquareBound(i: int, n: int)
    requires i >= 3
    ensures i * i <= n ==> i <= n - 2
  {}

  /** What trial division by odd numbers decides. */
  predicate TrialPrime(n: int) {
    n == 2 || n == 3 || (n > 3 && n % 2 != 0 && NoOddDivisor(n, 3))
  }

  lemma MulGrows(k: int, i: int, d: int)
    requires k >= 0 && i <= d
    ensures k * i <= k * d
  {}

  lemma {:induction false} NoOddDivisorExcludes(n: int, i: int, d: int)
    requires i >= 3 && i % 2 == 1 && NoOddDivisor(n, i)
    requires i <= d && d % 2 == 1 && d * d <= n
    ensures n % d != 0
    decreases n - i
  {
    MulGrows(i, i, d);
    MulGrows(d, i, d);
    SquareBound(i, n);
    if d != i {
      NoOddDivisorExcludes(n, i + 2, d);
    }
  }

  lemma {:induction false} DivisorFound(n: int, i: int) returns (d: int)
    requires i >= 3 && !NoOddDivisor(n, i)
    ensures i <= d && d * d <= n && n % d == 0
    decreases n - i
  {
    SquareBound(i, n);
    if n % i == 0 {
      d := i;
    } else {
      d := DivisorFound(n, i + 2);
    }
  }

  lemma SmallerCofactor(d: int, n: int) returns (e: int)
    requires 2 <= d < n && Divides(d, n)
    ensures 2 <= e && e * e <= n && Divides(e, n)
  {
    var q := n / d;
    assert n == q * d;
    MulBound(q, d);
    assert q != 1;
    assert q >= 2;
    DividesMultiple(q, d);
    if d <= q {
      e := d;
      MulGrows(d, d, q);
    } else {
      e := q;
      MulGrows(q, q, d);
    }
  }

  /** Trial division decides primality. */
  lemma TrialPrimeIsPrime(n: int)
    ensures TrialPrime(n) <==> IsPrime(n)
  {
    if n > 3 {
      if !IsPrime(n) && n % 2 != 0 {
        var d :| 2 <= d < n && Divides(d, n);
        var e := SmallerCofactor(d, n);
        if e % 2 == 0 {
          DividesTrans(2, e, n);
          assert false;
        }
        assert e >= 3;
        if NoOddDivisor(n, 3) {
          NoOddDivisorExcludes(n, 3, e);
        }
      }
      if n % 2 == 0 {
        assert Divides(2, n);
      } else if !NoOddDivisor(n, 3) {
        var d := DivisorFound(n, 3);
        assert d < n by {
          assert (d - 1) * d >= 1;
        }
        assert Divides(d, n);
      }
    } else if n == 3 {
      assert !Divides(2, 3);
    }
  }

  /** A product has the residue that the product of the residues has. */
  lemma ResiduesMultiply(a: int, b: int, n: int)
    requires n > 0
    ensures (a * b) % n == ((a % n) * (b % n)) % n
  {
    ModMulLeft(a, b, n);
    ModMulRight(a % n, b, n);
  }

  // ---------- Generators ----------

  /** The first k powers of g modulo n, starting from g^0. */
  ghost function PowersMod(g: int, k: nat, n: int): set<int>
    requires n > 1
  {
    if k == 0 then {} else PowersMod(g, k - 1, n) + {Pow(g, k - 1) % n}
  }

  lemma {:induction false} PowersModMember(g: int, k: nat, n: int, y: int) returns (i: nat)
    requires n > 1 && y in PowersMod(g, k, n)
    ensures i < k && y == Pow(g, i) % n
  {
    if y == Pow(g, k - 1) % n {
      i := k - 1;
    } else {
      i := PowersModMember(g, k - 1, n, y);
    }
  }

  /** Quotient of two congruent powers. */
  lemma PowersCancel(g: int, i: nat, j: nat, order: nat, n: int)
    requires n > 1 && i < j <= order && Pow(g, order) % n == 1
    requires Pow(g, i) % n == Pow(g, j) % n
    ensures Pow(g, j - i) % n == 1
  {
    var c, d := order - i, j - i;
    PowAdd(g, i, c);
    PowAdd(g, j, c);
    PowAdd(g, d, order);
    assert j + c == d + order && i + c == order;
    ModMulCongruent(Pow(g, i), Pow(g, j), Pow(g, c), Pow(g, c), n);
    DivModUnique(1, n, 0, 1);
    ModMulCongruent(Pow(g, d), Pow(g, d), Pow(g, order), 1, n);
  }

  lemma PowRemainder(g: int, k: nat, d: nat, n: int)
    requires n > 1 && 0 < d <= k && Pow(g, d) % n == 1
    ensures Pow(g, k % d) % n == Pow(g, k) % n
  {
    var q, r := k / d, k % d;
    assert k == d * q + r;
    PowAdd(g, d * q, r);
    PowMulOne(g, d, q, n);
    DivModUnique(1, n, 0, 1);
    ModMulCongruent(Pow(g, d * q), 1, Pow(g, r), Pow(g, r), n);
  }

  /** Some exponent e > 0 is the least one whose power is 1. */
  lemma {:induction false} LeastOrder(g: int, k: nat, n: int) returns (e: nat)
    requires n > 1 && k > 0 && Pow(g, k) % n == 1
    ensures 0 < e <= k && Pow(g, e) % n == 1
    ensures forall i :: 0 < i < e ==> Pow(g, i) % n != 1
  {
    e := k;
    if exists i :: 0 < i < k && Pow(g, i) % n == 1 {
      var i :| 0 < i < k && Pow(g, i) % n == 1;
      e := LeastOrder(g, i, n);
    }
  }

  /** g^order is 1, and no g^(order/q) with a prime q is. */
  ghost predicate OrderCertificate(g: int, order: int, n: int) {
    n > 1 && order > 0 && Pow(g, order) % n == 1 &&
    forall q: int :: IsPrime(q) && Divides(q, order) ==> Pow(g, order / q) % n != 1
  }

  /** A proper divisor e of a number divides that number's quotient by some prime. */
  lemma PrimeQuotient(order: nat, e: nat) returns (q: int, m: nat)
    requires 0 < e < order && Divides(e, order)
    ensures IsPrime(q) && Divides(q, order) && order / q == e * m
  {
    var c := order / e;
    assert order == c * e;
    MulBound(c, e);
    assert c != 1;
    q := HasPrimeDivisor(c);
    m := c / q;
    assert c == m * q;
    assert order == (e * m) * q by {
      assert (m * q) * e == (e * m) * q;
    }
    DivModUnique(order, q, e * m, 0);
  }

  /** Then no smaller positive power of g is 1. */
  lemma OrderIsExact(g: int, order: nat, n: int, i: nat)
    requires OrderCertificate(g, order, n) && 0 < i < order
    ensures Pow(g, i) % n != 1
  {
    var e := LeastOrder(g, order, n);
    PowRemainder(g, order, e, n);
    if e < order {
      assert Divides(e, order);
      var q, m := PrimeQuotient(order, e);
      PowMulOne(g, e, m, n);
      assert false;
    }
  }

  lemma {:induction false} PowersModCard(g: int, order: nat, n: int, k: nat)
    requires OrderCertificate(g, order, n) && k <= order
    ensures |PowersMod(g, k, n)| == k
  {
    if k > 0 {
      PowersModCard(g, order, n, k - 1);
      if Pow(g, k - 1) % n in PowersMod(g, k - 1, n) {
        var i := PowersModMember(g, k - 1, n, Pow(g, k - 1) % n);
        PowersCancel(g, i, k - 1, order, n);
        OrderIsExact(g, order, n, k - 1 - i);
        assert false;
      }
    }
  }

  lemma PowerNonzero(g: int, order: nat, n: int, i: nat)
    requires OrderCertificate(g, order, n) && i <= order
    ensures Pow(g, i) % n != 0
  {
    PowAdd(g, i, order - i);
    if Pow(g, i) % n == 0 {
      DividesProduct(n, Pow(g, i), Pow(g, order - i));
    }
  }

  /** An element of order n-1 modulo n generates every residue 1..n-1. */
  lemma GeneratorReaches(g: int, n: int, t: int) returns (i: nat)
    requires OrderCertificate(g, n - 1, n) && 1 <= t <= n - 1
    ensures i < n - 1 && Pow(g, i) % n == t
  {
    var k := n - 1;
    var s := PowersMod(g, k, n);
    forall y | y in s ensures y in Range(k) {
      var j := PowersModMember(g, k, n, y);
      PowerNonzero(g, k, n, j);
    }
    PowersModCard(g, k, n, k);
    SubsetSameCard(s, Range(k));
    i := PowersModMember(g, k, n, t);
  }

  lemma LargeMultiple(m: int, b: nat) returns (c: nat)
    requires m >= 1
    ensures c == m * b && c >= b
  {
    c := m * b;
    assert (m - 1) * b >= 0;
  }

  /** A modulus with an element of order n-1 is prime: every residue is a power of it, and so has an inverse. */
  lemma GeneratorMakesPrime(g: int, n: int)
    requires OrderCertificate(g, n - 1, n)
    ensures IsPrime(n)
  {
    if d: int :| 2 <= d < n && Divides(d, n) {
      var i := GeneratorReaches(g, n, d);
      PowAdd(g, i, n - 1 - i);
      NoCommonDivisor(Pow(g, i), Pow(g, n - 1 - i), n, d);
      assert false;
    }
  }

  /** A number with an inverse modulo n leaves no residue that divides n. */
  lemma NoCommonDivisor(x: int, y: int, n: int, d: int)
    requires n > 0 && d > 1 && Divides(d, n) && x % n == d
    ensures (x * y) % n != 1
  {
    DivModUnique(d, d, 1, 0);
    DividesCombination(d, d, n, x / n);
    assert x == d + x / n * n;
    DividesProduct(d, x, y);
    var z := x * y;
    DividesCombination(d, z, n, -(z / n));
    assert z + -(z / n) * n == z % n;
    DivModUnique(1, d, 0, 1);
  }

  /** Exponents less than the order apart give different powers. */
  lemma SamePowers(g: int, n: int, a: nat, b: nat)
    requires OrderCertificate(g, n - 1, n) && Pow(g, a) % n == Pow(g, b) % n
    requires a <= b < a + (n - 1)
    ensures a == b
  {
    if a < b {
      var c := LargeMultiple(n - 1, b);
      PowMulOne(g, n - 1, b, n);
      PowersCancel(g, a, b, c, n);
      OrderIsExact(g, n - 1, n, b - a);
    }
  }

  lemma PowPeriodic(g: int, n: int, j: nat)
    requires OrderCertificate(g, n - 1, n)
    ensures Pow(g, j + (n - 1)) % n == Pow(g, j) % n
  {
    PowAdd(g, j, n - 1);
    DivModUnique(1, n, 0, 1);
    ModMulCongruent(Pow(g, j), Pow(g, j), Pow(g, n - 1), 1, n);
  }

  lemma PowProduct(g: int, n: int, i: nat, k: nat, s: int)
    requires n > 1 && Pow(g, i) % n == s
    ensures (Pow(g, k) * s) % n == Pow(g, i + k) % n
  {
    PowAdd(g, k, i);
    ModMulRight(Pow(g, k), Pow(g, i), n);
  }

  /** Multiplying by a generator leads from any nonzero residue s to any other, t, in exactly
      one number of steps below n-1, and back again after n-1 further steps. */
  lemma GeneratorCycle(g: int, n: int, s: int, t: int) returns (k: nat)
    requires OrderCertificate(g, n - 1, n) && 1 <= s <= n - 1 && 1 <= t <= n - 1
    ensures k < n - 1 && (Pow(g, k) * s) % n == t
    ensures forall l: nat :: l < n - 1 && (Pow(g, l) * s) % n == t ==> l == k
    ensures (Pow(g, k + (n - 1)) * s) % n == t
  {
    var i := GeneratorReaches(g, n, s);
    var j := GeneratorReaches(g, n, t);
    k := if j >= i then j - i else j - i + (n - 1);
    PowPeriodic(g, n, j);
    PowPeriodic(g, n, i + k);
    PowProduct(g, n, i, k, s);
    PowProduct(g, n, i, k + (n - 1), s);
    forall l: nat | l < n - 1 && (Pow(g, l) * s) % n == t ensures l == k {
      PowProduct(g, n, i, l, s);
      if k <= l {
        SamePowers(g, n, i + k, i + l);
      } else {
        SamePowers(g, n, i + l, i + k);
      }
    }
  }

  // ---------- Fermat's little theorem ----------

  ghost function Product(s: set<int>): int {
    if s == {} then 1 else var x := Least(s); x * Product(s - {x})
  }

  ghost function Least(s: set<int>): (x: int)
    requires s != {}
    ensures x in s && forall y :: y in s ==> x <= y
  {
    LeastExists(s);
    var x :| x in s && forall y :: y in s ==> x <= y;
    x
  }

  lemma {:induction false} LeastExists(s: set<int>)
    requires s != {}
    ensures exists x :: x in s && forall y :: y in s ==> x <= y
  {
    var a := Pick(s);
    var rest := s - {a};
    assert s == rest + {a};
    if rest == {} {
      assert a in s && forall y :: y in s ==> a <= y;
    } else {
      LeastExists(rest);
      var b :| b in rest && forall y :: y in rest ==> b <= y;
      var m := if a < b then a else b;
      assert m in s && forall y :: y in s ==> m <= y;
    }
  }

  lemma LeastUnique(s: set<int>, x: int)
    requires x in s && forall y :: y in s ==> x <= y
    ensures Least(s) == x
  {}

  /** A product does not depend on the order in which its factors are taken. */
  lemma {:induction false} ProductRemove(s: set<int>, x: int)
    requires x in s
    ensures Product(s) == x * Product(s - {x})
    decreases |s|
  {
    var y := Least(s);
    if x != y {
      var t := s - {y} - {x};
      assert Product(s - {y}) == x * Product(t) by { ProductRemove(s - {y}, x); }
      assert Product(s - {x}) == y * Product(t) by {
        assert t == s - {x} - {y};
        LeastUnique(s - {x}, y);
      }
      MulSwap(x, y, Product(t));
    }
  }

  lemma ProductInsert(s: set<int>, y: int)
    requires y !in s
    ensures Product(s + {y}) == y * Product(s)
    ensures |s + {y}| == |s| + 1
  {
    assert s + {y} - {y} == s;
    ProductRemove(s + {y}, y);
  }

  lemma MulSwap(x: int, y: int, z: int)
    ensures x * (y * z) == y * (x * z)
  {}

  ghost function Range(k: nat): (s: set<int>)
    ensures forall i :: i in s <==> 1 <= i <= k
    ensures |s| == k
  {
    if k == 0 then {} else Range(k - 1) + {k}
  }

  ghost function MultiplesMod(a: int, k: nat, p: int): set<int>
    requires p > 0
  {
    if k == 0 then {} else MultiplesMod(a, k - 1, p) + {(a * k) % p}
  }

  /** Distinct numbers in 1..p-1 have distinct, nonzero multiples modulo p. */
  lemma MultiplesDistinct(a: int, p: int, i: int, j: int)
    requires IsPrime(p) && !Divides(p, a) && 1 <= i < p && 1 <= j < p
    ensures (a * i) % p != 0
    ensures (a * i) % p == (a * j) % p ==> i == j
  {
    if Divides(p, a * i) {
      Euclid(p, a, i);
      MultipleInRange(i, p, -1);
      assert false;
    }
    if (a * i) % p == (a * j) % p {
      ModEqual(a * i, a * j, p);
      assert a * i - a * j == a * (i - j);
      Euclid(p, a, i - j);
      MultipleInRange(i - j, p, -1);
    }
  }

  lemma {:induction false} MultiplesModMembers(a: int, k: nat, p: int, y: int) returns (i: int)
    requires p > 0 && y in MultiplesMod(a, k, p)
    ensures 1 <= i <= k && y == (a * i) % p
  {
    if y == (a * k) % p {
      i := k;
    } else {
      i := MultiplesModMembers(a, k - 1, p, y);
    }
  }

  lemma MultiplesExtend(a: int, k: nat, p: int)
    requires IsPrime(p) && !Divides(p, a) && 1 <= k < p
    ensures (a * k) % p !in MultiplesMod(a, k - 1, p)
  {
    if (a * k) % p in MultiplesMod(a, k - 1, p) {
      var i := MultiplesModMembers(a, k - 1, p, (a * k) % p);
      MultiplesDistinct(a, p, i, k);
    }
  }

  lemma RangeProduct(k: nat)
    requires k >= 1
    ensures Product(Range(k)) == k * Product(Range(k - 1))
  {
    assert Range(k) - {k} == Range(k - 1);
    ProductRemove(Range(k), k);
  }

  lemma {:induction false} MultiplesCard(a: int, k: nat, p: int)
    requires IsPrime(p) && !Divides(p, a) && k < p
    ensures |MultiplesMod(a, k, p)| == k
  {
    if k > 0 {
      MultiplesCard(a, k - 1, p);
      MultiplesExtend(a, k, p);
    }
  }

  lemma {:induction false} MultiplesProduct(a: int, k: nat, p: int)
    requires IsPrime(p) && !Divides(p, a) && k < p
    ensures Product(MultiplesMod(a, k, p)) % p == (Pow(a, k) * Product(Range(k))) % p
  {
    if k > 0 {
      MultiplesProduct(a, k - 1, p);
      var s', y := MultiplesMod(a, k - 1, p), (a * k) % p;
      var s, q, r := Product(s'), Pow(a, k - 1), Product(Range(k - 1));
      assert Product(MultiplesMod(a, k, p)) == y * s by {
        MultiplesExtend(a, k, p);
        ProductInsert(s', y);
      }
      MultiplesStep(a, k, s, q, r, p);
      RangeProduct(k);
    }
  }

  lemma MultiplesStep(a: int, k: int, s: int, q: int, r: int, p: int)
    requires p > 0 && s % p == (q * r) % p
    ensures ((a * k) % p * s) % p == ((a * q) * (k * r)) % p
  {
    ModMulLeft(a * k, s, p);
    ModMulCongruent(a * k, a * k, s, q * r, p);
    assert (a * k) * (q * r) == (a * q) * (k * r);
  }

  lemma SubsetSameCard<T>(s: set<T>, t: set<T>)
    requires s <= t && |s| == |t|
    ensures s == t
  {
    assert t == s + (t - s);
    assert |t| == |s| + |t - s|;
  }

  lemma NoDivisorOfProduct(p: int, k: int, m: int)
    requires IsPrime(p) && 0 < k < p && !Divides(p, m)
    ensures !Divides(p, k * m)
  {
    if Divides(p, k * m) {
      Euclid(p, k, m);
      MultipleInRange(k, p, -1);
      assert false;
    }
  }

  lemma {:induction false} RangeProductCoprime(k: nat, p: int)
    requires IsPrime(p) && k < p
    ensures !Divides(p, Product(Range(k)))
  {
    if k == 0 {
      DivModUnique(1, p, 0, 1);
    } else {
      RangeProductCoprime(k - 1, p);
      RangeProduct(k);
      NoDivisorOfProduct(p, k, Product(Range(k - 1)));
    }
  }

  /** The residues a, 2a, ..., (p-1)a are 1..p-1 in some order. */
  lemma MultiplesAreRange(a: int, p: int)
    requires IsPrime(p) && !Divides(p, a)
    ensures MultiplesMod(a, p - 1, p) == Range(p - 1)
  {
    var s, t := MultiplesMod(a, p - 1, p), Range(p - 1);
    forall y | y in s ensures y in t {
      var i := MultiplesModMembers(a, p - 1, p, y);
      MultiplesDistinct(a, p, i, i);
    }
    MultiplesCard(a, p - 1, p);
    SubsetSameCard(s, t);
  }

  lemma CancelMod(q: int, r: int, p: int)
    requires IsPrime(p) && !Divides(p, r) && (q * r) % p == r % p
    ensures q % p == 1
  {
    ModEqual(q * r, r, p);
    assert q * r - r == (q - 1) * r;
    Euclid(p, q - 1, r);
    ModEqual(q, 1, p);
    DivModUnique(1, p, 0, 1);
  }

  /** Fermat's little theorem, by multiplying the residues a, 2a, ..., (p-1)a in two ways. */
  lemma Fermat(a: int, p: int)
    requires IsPrime(p) && !Divides(p, a)
    ensures Pow(a, p - 1) % p == 1
  {
    var k := p - 1;
    MultiplesAreRange(a, p);
    MultiplesProduct(a, k, p);
    RangeProductCoprime(k, p);
    CancelMod(Pow(a, k), Product(Range(k)), p);
  }
}
