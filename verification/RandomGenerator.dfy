/** The 31-bit linear congruential generator, computed with Schrage's decomposition
    so that no intermediate result leaves 32 bits. */
module RandomGenerator {
  import opened MachineIntegers
  import opened NumberTheory

  const A := 48271
  const M := 2147483647
  const Q := M / A
  const R := M % A

  /** Division truncating toward zero by a positive divisor. */
  function Quot(v: int, d: int): int
    requires d > 0
  {
    if v >= 0 then v / d else -((-v) / d)
  }

  /** The remainder of that division, with the sign of the dividend. */
  function Rem(v: int, d: int): (r: int)
    requires d > 0
    ensures v == Quot(v, d) * d + r && -d < r < d && (v >= 0 ==> r >= 0) && (v <= 0 ==> r <= 0)
  {
    if v >= 0 then v % d
    else
      assert -v == ((-v) / d) * d + (-v) % d;
      -((-v) % d)
  }

  /** The state after one step, every operation in 32-bit arithmetic. */
  function Step(state: int): int {
    var tmp := Wrap32(Wrap32(A * Rem(state, Q)) - Wrap32(R * Quot(state, Q)));
    if tmp >= 0 then tmp else Wrap32(tmp + M)
  }

  function Seeded(initialValue: int): int {
    var state := if initialValue < 0 then Wrap32(initialValue + M) else initialValue;
    if state == 0 then 1 else state
  }

  class Random {
    var state: int

    constructor (initialValue: int)
      requires IsInt32(initialValue)
      ensures state == Seeded(initialValue)
      ensures 0 < initialValue <= M ==> state == initialValue
      ensures -M < initialValue < 0 ==> state == initialValue + M
      ensures initialValue == 0 || initialValue == -M ==> state == 1
      ensures initialValue < -M ==> state == initialValue + M
    {
      if initialValue < 0 {
        WrapInRange(initialValue + M);
      }
      var v := initialValue;
      if v < 0 {
        v := Wrap32(v + M);
      }
      state := if v == 0 then 1 else v;
    }

    /** Seeded from the system clock. */
    constructor FromClock(millis: int)
      ensures state == Seeded(Rem(millis, M)) && 1 <= state <= M - 1
      ensures var r := Rem(millis, M); state == if r > 0 then r else if r < 0 then r + M else 1
    {
      ClockSeedIsGood(millis);
      if Rem(millis, M) < 0 {
        WrapInRange(Rem(millis, M) + M);
      }
      state := Seeded(Rem(millis, M));
    }

    method RandomInt() returns (r: int)
      modifies this
      ensures state == Step(old(state)) && r == state
      ensures 1 <= old(state) <= M - 1 ==> r == (48271 * old(state)) % 2147483647 && 1 <= r <= M - 1
    {
      if 1 <= state <= M - 1 {
        SchrageStep(state);
      }
      var tmpState := Wrap32(Wrap32(A * Rem(state, Q)) - Wrap32(R * Quot(state, Q)));
      if tmpState >= 0 {
        state := tmpState;
      } else {
        state := Wrap32(tmpState + M);
      }
      return state;
    }
  }

  // ---------- One step ----------

  /** The arithmetic of Schrage's decomposition state == q * Q + r. */
  lemma Schrage(state: int, q: int, r: int)
    requires 1 <= state <= 2147483646 && 0 <= r < 44488 && state == q * 44488 + r
    ensures IsInt32(48271 * r) && IsInt32(3399 * q) && IsInt32(48271 * r - 3399 * q)
    ensures var tmp := 48271 * r - 3399 * q;
            (48271 * state) % 2147483647 == if tmp >= 0 then tmp else tmp + 2147483647
  {
    var tmp := 48271 * r - 3399 * q;
    assert 48271 * state == q * 2147483647 + tmp;
    if tmp >= 0 {
      DivModUnique(48271 * state, 2147483647, q, tmp);
    } else {
      DivModUnique(48271 * state, 2147483647, q - 1, tmp + 2147483647);
    }
  }

  /** The step multiplies by A modulo M, within 32 bits and never reaching 0. */
  lemma SchrageStep(state: int)
    requires 1 <= state <= M - 1
    ensures IsInt32(A * Rem(state, Q)) && IsInt32(R * Quot(state, Q))
    ensures IsInt32(A * Rem(state, Q) - R * Quot(state, Q))
    ensures Step(state) == (A * state) % M
    ensures 1 <= Step(state) <= M - 1
  {
    var q, r := Quot(state, Q), Rem(state, Q);
    assert Q == 44488 && R == 3399;
    Schrage(state, q, r);
    WrapInRange(A * r);
    WrapInRange(R * q);
    WrapInRange(A * r - R * q);
    NonzeroStays(state);
    WrapInRange((A * state) % M);
  }

  /** A nonzero state never becomes zero. */
  lemma NonzeroStays(state: int)
    requires 1 <= state <= M - 1
    ensures (A * state) % M != 0
  {}

  // ---------- Seeds ----------

  /** The seeds that leave the state in 1..M-1 are all 32-bit values but two. */
  lemma SeedIsGood(seed: int)
    requires IsInt32(seed)
    ensures 1 <= Seeded(seed) <= M - 1 <==> seed != M && seed != -M - 1
  {
    if seed < 0 {
      WrapInRange(seed + M);
    }
  }

  // ---------- Whole runs ----------

  /** The state k steps after s. */
  function State(s: int, k: nat): int {
    if k == 0 then s else Step(State(s, k - 1))
  }

  lemma {:induction false} StuckAtZero(k: nat)
    ensures State(0, k) == 0
  {
    if k > 0 {
      StuckAtZero(k - 1);
      StepFromBadSeeds();
    }
  }

  lemma {:induction false} StateIsPower(s: int, k: nat)
    requires 1 <= s <= M - 1
    ensures State(s, k) == (Pow(A, k) * s) % M
    ensures 1 <= State(s, k) <= M - 1
  {
    if k == 0 {
      DivModUnique(s, M, 0, s);
    } else {
      StateIsPower(s, k - 1);
      SchrageStep(State(s, k - 1));
      MulOnce(A, Pow(A, k - 1), s, M);
    }
  }

  /** Whatever the clock shows, its remainder is neither of the two bad seeds. */
  lemma ClockSeedIsGood(millis: int)
    ensures IsInt32(Rem(millis, M)) && 1 <= Seeded(Rem(millis, M)) <= M - 1
  {
    SeedIsGood(Rem(millis, M));
  }

  lemma MulOnce(a: int, p: int, s: int, n: int)
    requires n > 0
    ensures (a * ((p * s) % n)) % n == ((a * p) * s) % n
  {
    ModMulRight(a, p * s, n);
    assert a * (p * s) == (a * p) * s;
  }

  lemma StepFromBadSeeds()
    ensures Step(Seeded(M)) == 0 && Step(0) == 0
    ensures Step(Seeded(-M - 1)) == M - A
  {
    var product := 48271 * 3399;
    WrapInRange(product);
    WrapInRange(0);
    assert Quot(M, Q) == 48271 && Rem(M, Q) == 3399 && R == 3399;
    assert Step(M) == 0;
    WrapInRange(-1);
    WrapInRange(-A);
    WrapInRange(M - A);
    assert Quot(-1, Q) == 0 && Rem(-1, Q) == -1;
    assert Step(-1) == M - A;
  }

  /** Outputs stay in 1..M-1 forever for every seed but Integer.MAX_VALUE, which gets stuck at 0. */
  lemma OutputsStayInRange(seed: int, k: nat)
    requires IsInt32(seed)
    ensures seed != M ==> 1 <= State(Step(Seeded(seed)), k) <= M - 1
    ensures seed == M ==> State(Step(Seeded(seed)), k) == 0
  {
    StepFromBadSeeds();
    var s := Step(Seeded(seed));
    if seed == M {
      StuckAtZero(k);
    } else {
      if seed != -M - 1 {
        SeedIsGood(seed);
        SchrageStep(Seeded(seed));
      }
      StateIsPower(s, k);
    }
  }

  // ---------- The full period ----------

  lemma PrimeFactor(q: int, f: int, rest: int)
    requires IsPrime(q) && TrialPrime(f) && Divides(q, f * rest)
    ensures q == f || Divides(q, rest)
  {
    TrialPrimeIsPrime(f);
    Euclid(q, f, rest);
    if Divides(q, f) {
      assert q <= f by {
        assert f == (f / q) * q;
        MulBound(f / q, q);
      }
    }
  }

  /** M - 1 is 2 * 3^2 * 7 * 11 * 31 * 151 * 331. */
  lemma PrimeFactorsOfPeriod(q: int)
    requires IsPrime(q) && Divides(q, M - 1)
    ensures q == 2 || q == 3 || q == 7 || q == 11 || q == 31 || q == 151 || q == 331
  {
    PrimeFactor(q, 2, 1073741823);
    if Divides(q, 1073741823) { PrimeFactor(q, 3, 357913941); }
    if Divides(q, 357913941) { PrimeFactor(q, 3, 119304647); }
    if Divides(q, 119304647) { PrimeFactor(q, 7, 17043521); }
    if Divides(q, 17043521) { PrimeFactor(q, 11, 1549411); }
    if Divides(q, 1549411) { PrimeFactor(q, 31, 49981); }
    if Divides(q, 49981) { PrimeFactor(q, 151, 331); }
    if Divides(q, 331) { PrimeFactor(q, 331, 1); }
    if Divides(q, 1) {
      DivModUnique(1, q, 0, 1);
      assert false;
    }
  }

  /** p is an exponential function modulo M. */
  ghost predicate Exponential(p: nat -> int) {
    p(0) == 1 && forall i: nat, j: nat :: Adds(p, i, j)
  }

  ghost predicate Adds(p: nat -> int, i: nat, j: nat) {
    p(i + j) == (p(i) * p(j)) % M
  }

  /** One step of left-to-right exponentiation. */
  function NextBit(base: int, x: int, odd: bool): int {
    (if odd then base * (x * x) else x * x) % M
  }

  lemma OneBit(p: nat -> int, k: nat, odd: bool)
    requires Exponential(p)
    ensures p(2 * k + if odd then 1 else 0) == NextBit(p(1), p(k), odd)
  {
    assert Adds(p, k, k);
    if odd {
      assert Adds(p, 1, 2 * k);
      ModMulRight(p(1), p(k) * p(k), M);
    }
  }

  lemma FourBits(p: nat -> int, base: int, k: nat, x: int, d: nat, y1: int, y2: int, y3: int, y4: int)
    requires Exponential(p) && p(1) == base && p(k) == x && d < 16
    requires NextBit(base, x, d / 8 % 2 == 1) == y1 && NextBit(base, y1, d / 4 % 2 == 1) == y2
    requires NextBit(base, y2, d / 2 % 2 == 1) == y3 && NextBit(base, y3, d % 2 == 1) == y4
    ensures p(16 * k + d) == y4
  {
    OneBit(p, k, d / 8 % 2 == 1);
    OneBit(p, 2 * k + d / 8, d / 4 % 2 == 1);
    OneBit(p, 4 * k + d / 4, d / 2 % 2 == 1);
    OneBit(p, 8 * k + d / 2, d % 2 == 1);
  }

  /** The residues y1..y8 prolong the exponentiation by the bits of hi and lo. */
  lemma EightBits(p: nat -> int, base: int, k: nat, x: int, hi: nat, lo: nat,
                  y1: int, y2: int, y3: int, y4: int, y5: int, y6: int, y7: int, y8: int)
    requires Exponential(p) && p(1) == base && p(k) == x && hi < 16 && lo < 16
    requires NextBit(base, x, hi / 8 % 2 == 1) == y1 && NextBit(base, y1, hi / 4 % 2 == 1) == y2
    requires NextBit(base, y2, hi / 2 % 2 == 1) == y3 && NextBit(base, y3, hi % 2 == 1) == y4
    requires NextBit(base, y4, lo / 8 % 2 == 1) == y5 && NextBit(base, y5, lo / 4 % 2 == 1) == y6
    requires NextBit(base, y6, lo / 2 % 2 == 1) == y7 && NextBit(base, y7, lo % 2 == 1) == y8
    ensures p(256 * k + 16 * hi + lo) == y8
  {
    FourBits(p, base, k, x, hi, y1, y2, y3, y4);
    FourBits(p, base, 16 * k + hi, y4, lo, y5, y6, y7, y8);
  }

  const LOW := 73136486   // A^1549411
  const HIGH := 739992498   // A^1386

  lemma PowerLow(p: nat -> int)
    requires Exponential(p) && p(1) == A
    ensures p(1549411) == 73136486
  {
    EightBits(p, A, 0, 1, 1, 7, 1, 1, 1, 48271, 182605794, 2078669041, 192302371, 1931656580);
    EightBits(p, A, 23, 1931656580, 10, 4, 153892771, 583514338, 1889033429, 564470027, 2068435081, 679711916,
      1261574078, 1217951857);
    EightBits(p, A, 6052, 1217951857, 6, 3, 2013683454, 2017139753, 1110291661, 1710890734, 164841173, 1366835178,
      64871225, 73136486);
  }

  lemma PowerHigh(p: nat -> int)
    requires Exponential(p) && p(1) == A
    ensures p(1386) == 739992498
  {
    EightBits(p, A, 0, 1, 0, 5, 1, 1, 1, 1, 1, 48271, 182605794, 2078669041);
    EightBits(p, A, 5, 2078669041, 6, 10, 1596680831, 638022372, 1287522347, 1444510476, 2038155762, 1697016393,
      1875966926, 739992498);
  }

  lemma Without2(p: nat -> int)
    requires Exponential(p) && p(1) == LOW
    ensures p(693) == 2147483646
  {
    EightBits(p, LOW, 0, 1, 0, 2, 1, 1, 1, 1, 1, 1, 73136486, 1906415184);
    EightBits(p, LOW, 2, 1906415184, 11, 5, 345690716, 651963920, 1755000599, 897464226, 2045379851, 1015182983,
      2090307400, 2147483646);
  }

  lemma Without3(p: nat -> int)
    requires Exponential(p) && p(1) == LOW
    ensures p(462) == 634005911
  {
    EightBits(p, LOW, 0, 1, 0, 1, 1, 1, 1, 1, 1, 1, 1, 73136486);
    EightBits(p, LOW, 1, 73136486, 12, 14, 602171098, 566908260, 792142573, 503604431, 247883836, 554655091, 634005912,
      634005911);
  }

  lemma Without7(p: nat -> int)
    requires Exponential(p) && p(1) == LOW
    ensures p(198) == 1752599774
  {
    EightBits(p, LOW, 0, 1, 12, 6, 73136486, 602171098, 62058866, 1381708862, 465197808, 985925086, 1253228241,
      1752599774);
  }

  lemma Without11(p: nat -> int)
    requires Exponential(p) && p(1) == LOW
    ensures p(126) == 219454379
  {
    EightBits(p, LOW, 0, 1, 7, 14, 1, 73136486, 602171098, 566908260, 281744823, 1840190920, 178271473, 219454379);
  }

  lemma Without31(p: nat -> int)
    requires Exponential(p) && p(1) == HIGH
    ensures p(49981) == 64
  {
    EightBits(p, HIGH, 0, 1, 12, 3, 739992498, 1049322006, 1879603376, 636767428, 535168182, 319895813, 608589869,
      909706940);
    EightBits(p, HIGH, 195, 909706940, 3, 13, 1725796646, 143831169, 1646306337, 1507919274, 723671390, 799718346,
      801702152, 64);
  }

  lemma Without151(p: nat -> int)
    requires Exponential(p) && p(1) == HIGH
    ensures p(10261) == 556613938
  {
    EightBits(p, HIGH, 0, 1, 2, 8, 1, 1, 739992498, 1838285354, 1572359469, 2123559788, 1540369794, 691161421);
    EightBits(p, HIGH, 40, 691161421, 1, 5, 1850952671, 1278069981, 251226739, 1507525874, 2033745511, 214221145,
      2073387938, 556613938);
  }

  lemma Without331(p: nat -> int)
    requires Exponential(p) && p(1) == HIGH
    ensures p(4681) == 1627574666
  {
    EightBits(p, HIGH, 0, 1, 1, 2, 1, 1, 1, 739992498, 1838285354, 431489313, 1027332258, 1665723641);
    EightBits(p, HIGH, 18, 1665723641, 4, 9, 175047247, 142034784, 1874181138, 2031920506, 1025952056, 671088586,
      746588994, 1627574666);
  }

  /** The powers of a power. */
  ghost function Scaled(p: nat -> int, i: nat): nat -> int {
    (k: nat) => p(i * k)
  }

  lemma ScaledIsExponential(p: nat -> int, i: nat)
    requires Exponential(p)
    ensures Exponential(Scaled(p, i)) && Scaled(p, i)(1) == p(i)
  {
    var r := Scaled(p, i);
    forall j: nat, k: nat ensures Adds(r, j, k) {
      assert i * (j + k) == i * j + i * k;
      assert Adds(p, i * j, i * k);
    }
  }

  lemma NotOneLow(p: nat -> int, q: int)
    requires Exponential(p) && p(1) == A && (q == 2 || q == 3 || q == 7 || q == 11)
    ensures p((M - 1) / q) != 1
    ensures p(M - 1) == 1
  {
    PowerLow(p);
    ScaledIsExponential(p, 1549411);
    var r := Scaled(p, 1549411);
    Without2(r);
    Without3(r);
    Without7(r);
    Without11(r);
    OneBit(p, 1073741823, false);
  }

  lemma NotOneHigh(p: nat -> int, q: int)
    requires Exponential(p) && p(1) == A && (q == 31 || q == 151 || q == 331)
    ensures p((M - 1) / q) != 1
  {
    PowerHigh(p);
    ScaledIsExponential(p, 1386);
    var r := Scaled(p, 1386);
    Without31(r);
    Without151(r);
    Without331(r);
  }

  lemma PowIsExponential(g: int, p: nat -> int)
    requires forall k: nat :: p(k) == Pow(g, k) % M
    ensures Exponential(p)
  {
    forall i: nat, j: nat ensures Adds(p, i, j) {
      PowAdd(g, i, j);
      ResiduesMultiply(Pow(g, i), Pow(g, j), M);
    }
  }

  lemma MultiplierCertificate(g: int, n: int)
    requires g == A && n == M
    ensures OrderCertificate(g, n - 1, n)
  {
    var p := (k: nat) => Pow(g, k) % n;
    PowIsExponential(g, p);
    assert p(1) == A;
    NotOneLow(p, 2);
    forall q: int | IsPrime(q) && Divides(q, n - 1)
      ensures Pow(g, (n - 1) / q) % n != 1
    {
      PrimeFactorsOfPeriod(q);
      if q <= 11 {
        NotOneLow(p, q);
      } else {
        NotOneHigh(p, q);
      }
    }
  }

  lemma Cycle(g: int, n: int, s: int, t: int) returns (k: nat)
    requires g == A && n == M && 1 <= s <= n - 1 && 1 <= t <= n - 1
    ensures k < n - 1 && State(s, k) == t
    ensures forall j: nat :: j < n - 1 && State(s, j) == t ==> j == k
    ensures State(s, k + (n - 1)) == t
  {
    MultiplierCertificate(g, n);
    k := GeneratorCycle(g, n, s, t);
    StateIsPower(s, k);
    StateIsPower(s, k + (n - 1));
    forall j: nat | j < n - 1 && State(s, j) == t ensures j == k {
      StateIsPower(s, j);
    }
  }

  /** A generates the residues modulo M: from any state every state is reached, in less than
      M - 1 steps, and no state comes back sooner than after M - 1 steps. */
  lemma FullPeriod(s: int, t: int) returns (k: nat)
    requires 1 <= s <= M - 1 && 1 <= t <= M - 1
    ensures k < M - 1 && State(s, k) == t
    ensures forall j: nat :: j < M - 1 && State(s, j) == t ==> j == k
    ensures State(s, k + (M - 1)) == t
  {
    k := Cycle(A, M, s, t);
  }
}
