/** Hash table with quadratic probing, tombstones and rehashing into tables of prime length. */
module QuadraticProbing {
  import opened Basics
  import opened NumberTheory

  // ---------- The slots of a table, as values ----------

  datatype Slot<T> = Free | Used(element: T, active: bool)

  type HashFunction<!T> = (T, nat) -> nat

  ghost predicate GoodHash<T(!new)>(hash: HashFunction<T>) {
    forall x: T, n: nat :: n > 0 ==> hash(x, n) < n
  }

  /** Position of the k-th probe from h in a table of length n. */
  function Probe(h: nat, k: nat, n: nat): (p: nat)
    requires n > 0
    ensures p < n
  {
    (h + k * k) % n
  }

  predicate Stops<T(==)>(s: seq<Slot<T>>, x: T, p: nat)
    requires p < |s|
  {
    s[p].Free? || s[p].element == x
  }

  /** The k-th probe for x, which starts at h, is the first one to meet a free slot or x. */
  ghost predicate FirstStop<T>(s: seq<Slot<T>>, h: nat, x: T, k: nat) {
    |s| > 0 && Stops(s, x, Probe(h, k, |s|)) &&
    forall j: nat :: j < k ==> !Stops(s, x, Probe(h, j, |s|))
  }

  /** The first k steps of the search from h stay in a table of length n. */
  ghost predicate StaysIn(h: nat, k: nat, n: nat) {
    n > 0 && forall j: nat {:trigger Probe(h, j, n)} :: j < k ==> Probe(h, j, n) + 2 * j + 1 < 2 * n
  }

  /** The search for x, which starts at h, leaves the table at step k: no earlier step does, or stops. */
  ghost predicate LeavesAt<T>(s: seq<Slot<T>>, h: nat, x: T, k: nat) {
    StaysIn(h, k, |s|) && Probe(h, k, |s|) + 2 * k + 1 >= 2 * |s| &&
    forall j: nat :: j <= k ==> !Stops(s, x, Probe(h, j, |s|))
  }

  ghost predicate SearchFails<T>(s: seq<Slot<T>>, h: nat, x: T) {
    exists k: nat :: LeavesAt(s, h, x, k)
  }

  /** Every stored element is found where its probes lead, and nowhere else. */
  ghost predicate WellPlaced<T(!new)>(s: seq<Slot<T>>, hash: HashFunction<T>) {
    && (forall i, j :: 0 <= i < |s| && 0 <= j < |s| && s[i].Used? && s[j].Used? && s[i].element == s[j].element ==>
          i == j)
    && (forall i :: 0 <= i < |s| && s[i].Used? ==> Reached(s, hash(s[i].element, |s|), i))
  }

  ghost predicate Reached<T>(s: seq<Slot<T>>, h: nat, i: nat)
    requires i < |s| && s[i].Used?
  {
    exists k: nat :: FirstStop(s, h, s[i].element, k) && Probe(h, k, |s|) == i
  }

  /** The set that a table stands for. */
  ghost function Elements<T>(s: seq<Slot<T>>): set<T> {
    set i | 0 <= i < |s| && s[i].Used? && s[i].active :: s[i].element
  }

  /** The elements removed whose slots are still taken. */
  ghost function Tombstones<T>(s: seq<Slot<T>>): set<T> {
    set i | 0 <= i < |s| && s[i].Used? && !s[i].active :: s[i].element
  }

  ghost function UsedSlots<T>(s: seq<Slot<T>>): set<int> {
    set i | 0 <= i < |s| && s[i].Used?
  }

  // ---------- Which lengths are good for probing ----------

  /** The lengths that probing needs: one, a prime, or twice an odd prime. */
  predicate GoodSize(n: int) {
    n == 1 || IsPrime(n) || (n % 2 == 0 && n / 2 != 2 && IsPrime(n / 2))
  }

  /** Adding 2k-1 and subtracting the length at most once computes the k-th probe, if it stays in the table. */
  lemma NextProbe(h: nat, k: nat, n: nat)
    requires n > 0 && k >= 1
    ensures var q := Probe(h, k - 1, n) + 2 * k - 1;
            (2 * k - 1 <= n ==> q < 2 * n) && (q < 2 * n ==> Probe(h, k, n) == if q >= n then q - n else q)
  {
    var p := Probe(h, k - 1, n);
    var a := h + (k - 1) * (k - 1);
    assert h + k * k == a + (2 * k - 1);
    var q := p + 2 * k - 1;
    assert a == (a / n) * n + p;
    if n <= q < 2 * n {
      assert (a / n + 1) * n == (a / n) * n + n;
      DivModUnique(h + k * k, n, a / n + 1, q - n);
    } else if q < n {
      DivModUnique(h + k * k, n, a / n, q);
    }
  }

  /** Two probes meet exactly if the length divides the difference of their squares. */
  lemma ProbesMeet(h: nat, i: nat, j: nat, n: nat)
    requires n > 0
    ensures Probe(h, i, n) == Probe(h, j, n) <==> Divides(n, (j - i) * (j + i))
  {
    ModEqual(h + j * j, h + i * i, n);
    assert (h + j * j) - (h + i * i) == (j - i) * (j + i);
  }

  /** In a table of good length the first n/2+1 probes are distinct. */
  lemma ProbesDistinct(h: nat, i: nat, j: nat, n: nat)
    requires GoodSize(n) && i < j <= n / 2
    ensures Probe(h, i, n) != Probe(h, j, n)
  {
    ProbesMeet(h, i, j, n);
    if Divides(n, (j - i) * (j + i)) {
      if IsPrime(n) {
        NoneMeetInPrime(i, j, n);
      } else {
        NoneMeetInTwicePrime(i, j, n / 2);
      }
      assert false;
    }
  }

  lemma NoneMeetInPrime(i: nat, j: nat, p: nat)
    requires IsPrime(p) && i < j <= p / 2
    ensures !Divides(p, (j - i) * (j + i))
  {
    if Divides(p, (j - i) * (j + i)) {
      Euclid(p, j - i, j + i);
      if Divides(p, j - i) {
        MultipleInRange(j - i, p, -1);
      } else {
        MultipleInRange(j + i, p, -1);
      }
      assert false;
    }
  }

  /** One of the two factors would be p, and so both of them odd. */
  lemma NoneMeetInTwicePrime(i: nat, j: nat, p: nat)
    requires IsPrime(p) && p != 2 && i < j <= p
    ensures !Divides(2 * p, (j - i) * (j + i))
  {
    var d, e := j - i, j + i;
    if Divides(2 * p, d * e) {
      DividesMultiple(p, 2);
      DividesMultiple(2, p);
      DividesTrans(p, 2 * p, d * e);
      DividesTrans(2, 2 * p, d * e);
      Euclid(p, d, e);
      assert !Divides(2, p);
      assert d == p || e == p by {
        if Divides(p, d) {
          MultipleInRange(d, p, 0);
        } else {
          MultipleInRange(e, p, 0);
        }
      }
      Euclid2(d, e);
      assert false;
    }
  }

  /** 2 divides a product only if it divides a factor. */
  lemma Euclid2(d: int, e: int)
    ensures Divides(2, d * e) ==> Divides(2, d) || Divides(2, e)
  {
    if Divides(2, d * e) {
      Euclid(2, d, e);
    }
  }

  /** In a table of any other length some two of the first n/2+1 probes meet, wherever they start. */
  lemma ProbesCollide(n: nat) returns (i: nat, j: nat)
    requires n >= 1 && !GoodSize(n)
    ensures i < j <= n / 2 && forall h: nat :: Probe(h, i, n) == Probe(h, j, n)
  {
    i, j := FactorsCollide(n);
    forall h: nat ensures Probe(h, i, n) == Probe(h, j, n) {
      ProbesMeet(h, i, j, n);
    }
  }

  /** n divides the difference of the squares of i and j. */
  predicate Collide(i: nat, j: nat, n: nat)
    requires n > 0
  {
    Divides(n, (j - i) * (j + i))
  }

  lemma FactorsCollide(n: nat) returns (i: nat, j: nat)
    requires n >= 1 && !GoodSize(n)
    ensures i < j <= n / 2 && Collide(i, j, n)
  {
    if n % 4 == 0 {
      i, j := 0, 2 * (n / 4);
      QuarterCollides(n / 4, n);
    } else if n % 2 == 0 {
      i, j := EvenCollides(n);
    } else {
      var a, b := OddFactors(n);
      i, j := ProductCollides(a, b, n);
    }
  }

  lemma EvenCollides(n: nat) returns (i: nat, j: nat)
    requires n >= 1 && n % 2 == 0 && n % 4 != 0 && !GoodSize(n)
    ensures i < j <= n / 2 && Collide(i, j, n)
  {
    assert n != 2 by { assert IsPrime(2); }
    var a, b := OddFactors(n / 2);
    i, j := TwiceProductCollides(a, b, n);
  }

  /** A length 4m collides at 0 and 2m. */
  lemma QuarterCollides(m: nat, n: nat)
    requires m >= 1 && n == 4 * m
    ensures Collide(0, 2 * m, n)
  {
    assert (2 * m - 0) * (2 * m + 0) == m * (4 * m);
    DividesMultiple(n, m);
  }

  /** Twice an odd product ab collides at b-a and a+b. */
  lemma TwiceProductCollides(a: nat, b: nat, n: nat) returns (i: nat, j: nat)
    requires 3 <= a <= b && n / 2 == a * b && n % 2 == 0 && n > 0
    ensures i < j <= n / 2 && Collide(i, j, n)
  {
    i, j := b - a, a + b;
    SumBelowProduct(a, b);
    assert (j - i) * (j + i) == 2 * n by {
      assert (2 * a) * (2 * b) == 4 * (a * b);
    }
    DividesMultiple(n, 2);
  }

  /** An odd product ab collides at (b-a)/2 and (a+b)/2. */
  lemma ProductCollides(a: nat, b: nat, n: nat) returns (i: nat, j: nat)
    requires 3 <= a <= b && n == a * b && n > 0 && a % 2 == 1 && b % 2 == 1
    ensures i < j <= n / 2 && Collide(i, j, n)
  {
    i := (b - a) / 2;
    j := a + i;
    SumBelowProduct(a, b);
    assert j - i == a && j + i == b;
    SquaresDiffer(i, j, n);
  }

  lemma SquaresDiffer(i: nat, j: nat, n: nat)
    requires (j - i) * (j + i) == n > 0
    ensures Collide(i, j, n)
  {
    DivModUnique(n, n, 1, 0);
  }

  /** An odd composite number has two factors above 2, both odd. */
  lemma OddFactors(m: nat) returns (a: nat, b: nat)
    requires m > 1 && m % 2 == 1 && !IsPrime(m)
    ensures 3 <= a <= b && a * b == m && a % 2 == 1 && b % 2 == 1
  {
    var d :| 2 <= d < m && Divides(d, m);
    var e := m / d;
    assert m == e * d;
    MulBound(e, d);
    assert e != 1;
    OddProduct(e, d);
    a, b := if d <= e then d else e, if d <= e then e else d;
  }

  lemma OddProduct(e: int, d: int)
    requires (e * d) % 2 == 1
    ensures e % 2 == 1 && d % 2 == 1
  {
    if e % 2 == 0 {
      DividesProduct(2, e, d);
    }
    if d % 2 == 0 {
      DividesProduct(2, d, e);
    }
  }

  lemma SumBelowProduct(a: int, b: int)
    requires 3 <= a <= b
    ensures a + b <= a * b - 1
  {
    assert (a - 1) * (b - 1) >= 2 * 2 by {
      MulGrows(a - 1, 2, b - 1);
    }
  }

  /** The good lengths are exactly those at which the first n/2+1 probes never meet. */
  lemma GoodSizeExactly(n: nat)
    requires n >= 1
    ensures GoodSize(n) <==> forall h: nat, i: nat, j: nat :: i < j <= n / 2 ==> Probe(h, i, n) != Probe(h, j, n)
  {
    if GoodSize(n) {
      forall h: nat, i: nat, j: nat | i < j <= n / 2 ensures Probe(h, i, n) != Probe(h, j, n) {
        ProbesDistinct(h, i, j, n);
      }
    } else {
      var i, j := ProbesCollide(n);
      assert Probe(0, i, n) == Probe(0, j, n);
    }
  }

  // ---------- Probing a table of good length ----------

  /** The slots met by the first k probes. */
  ghost function Probed(h: nat, k: nat, n: nat): set<int>
    requires n > 0
  {
    if k == 0 then {} else Probed(h, k - 1, n) + {Probe(h, k - 1, n)}
  }

  lemma {:induction false} ProbedMember(h: nat, k: nat, n: nat, p: int) returns (j: nat)
    requires n > 0 && p in Probed(h, k, n)
    ensures j < k && p == Probe(h, j, n)
  {
    if p == Probe(h, k - 1, n) {
      j := k - 1;
    } else {
      j := ProbedMember(h, k - 1, n, p);
    }
  }

  lemma {:induction false} ProbedCard(h: nat, k: nat, n: nat)
    requires GoodSize(n) && k <= n / 2 + 1
    ensures |Probed(h, k, n)| == k
  {
    if k > 0 {
      ProbedCard(h, k - 1, n);
      if Probe(h, k - 1, n) in Probed(h, k - 1, n) {
        var j := ProbedMember(h, k - 1, n, Probe(h, k - 1, n));
        ProbesDistinct(h, j, k - 1, n);
      }
    }
  }

  /** At load at most one half, one of the first n/2+1 probes stops. */
  lemma ProbingEnds<T>(s: seq<Slot<T>>, h: nat, x: T, k: nat)
    requires GoodSize(|s|) && |UsedSlots(s)| <= |s| / 2
    requires forall j: nat :: j < k ==> !Stops(s, x, Probe(h, j, |s|))
    ensures k <= |s| / 2
  {
    if k > |s| / 2 {
      var n := |s| / 2 + 1;
      ProbedCard(h, n, |s|);
      forall p | p in Probed(h, n, |s|) ensures p in UsedSlots(s) {
        var j := ProbedMember(h, n, |s|, p);
      }
      SubsetCard(Probed(h, n, |s|), UsedSlots(s));
      assert false;
    }
  }

  lemma SomeProbeStops<T>(s: seq<Slot<T>>, h: nat, x: T) returns (k: nat)
    requires GoodSize(|s|) && |UsedSlots(s)| <= |s| / 2
    ensures k <= |s| / 2 && Stops(s, x, Probe(h, k, |s|))
  {
    k := |s| / 2 + 1;
    if forall j: nat :: j < k ==> !Stops(s, x, Probe(h, j, |s|)) {
      ProbingEnds(s, h, x, k);
    }
    k :| k <= |s| / 2 && Stops(s, x, Probe(h, k, |s|));
  }

  /** In a table of good length, at most half full, no search fails. */
  lemma GoodSizeSearches<T>(s: seq<Slot<T>>, h: nat, x: T)
    requires GoodSize(|s|) && |UsedSlots(s)| <= |s| / 2
    ensures !SearchFails(s, h, x)
  {
    var k := SomeProbeStops(s, h, x);
    assert forall l: nat :: l < k ==> Probe(h, l, |s|) + 2 * l + 1 < 2 * |s|;
  }

  /** A search that has stopped has not failed. */
  lemma StoppedOrFailed<T>(s: seq<Slot<T>>, h: nat, x: T, k: nat)
    requires FirstStop(s, h, x, k) && StaysIn(h, k, |s|)
    ensures !SearchFails(s, h, x)
  {}

  /** The search for x, which starts at h, has taken k steps in the table without a stop. */
  ghost predicate Searched<T>(s: seq<Slot<T>>, h: nat, x: T, k: nat) {
    StaysIn(h, k, |s|) && k <= |s| && forall j: nat :: j < k ==> !Stops(s, x, Probe(h, j, |s|))
  }

  /** The next step leads to the next probe, or out of the table. */
  lemma SearchStep<T>(s: seq<Slot<T>>, h: nat, x: T, k: nat, p: nat)
    requires Searched(s, h, x, k) && p == Probe(h, k, |s|) && !Stops(s, x, p)
    ensures var q := p + 2 * (k + 1) - 1;
            if q >= 2 * |s| then LeavesAt(s, h, x, k)
            else Searched(s, h, x, k + 1) && Probe(h, k + 1, |s|) == if q >= |s| then q - |s| else q
  {
    NextProbe(h, k + 1, |s|);
  }

  /** The two ends of a search in a table at most half full. */
  lemma SearchStops<T>(s: seq<Slot<T>>, h: nat, x: T, k: nat)
    requires Searched(s, h, x, k) && Stops(s, x, Probe(h, k, |s|)) && |UsedSlots(s)| <= |s| / 2
    ensures FirstStop(s, h, x, k) && !SearchFails(s, h, x) && (GoodSize(|s|) ==> k <= |s| / 2)
  {
    StoppedOrFailed(s, h, x, k);
    if GoodSize(|s|) {
      ProbingEnds(s, h, x, k);
    }
  }

  lemma SearchLeaves<T>(s: seq<Slot<T>>, h: nat, x: T, k: nat)
    requires LeavesAt(s, h, x, k) && |UsedSlots(s)| <= |s| / 2
    ensures SearchFails(s, h, x) && !GoodSize(|s|)
  {
    if GoodSize(|s|) {
      GoodSizeSearches(s, h, x);
    }
  }

  // ---------- What a probe sequence finds ----------

  /** The probes for x end at x itself if some slot holds it, even as a tombstone. */
  lemma StopIsPlace<T(!new)>(s: seq<Slot<T>>, hash: HashFunction<T>, x: T, k: nat, i: nat)
    requires WellPlaced(s, hash) && FirstStop(s, hash(x, |s|), x, k)
    requires i < |s| && s[i].Used? && s[i].element == x
    ensures Probe(hash(x, |s|), k, |s|) == i
  {}

  /** The slot at which the probes for x end is active exactly if x is in the set. */
  lemma StopDecides<T(!new)>(s: seq<Slot<T>>, hash: HashFunction<T>, x: T, k: nat)
    requires WellPlaced(s, hash) && FirstStop(s, hash(x, |s|), x, k)
    ensures var c := s[Probe(hash(x, |s|), k, |s|)];
            (x in Elements(s) <==> c.Used? && c.active) && (c.Used? ==> c.element == x)
  {}

  // ---------- Updates ----------

  /** Storing x where its probes end keeps every other element in its place. */
  lemma StoreKeepsPlaces<T(!new)>(s: seq<Slot<T>>, hash: HashFunction<T>, x: T, k: nat, active: bool)
    requires WellPlaced(s, hash) && FirstStop(s, hash(x, |s|), x, k)
    ensures WellPlaced(s[Probe(hash(x, |s|), k, |s|) := Used(x, active)], hash)
  {}

  /** No other slot holds x. */
  lemma StopIsOnly<T(!new)>(s: seq<Slot<T>>, hash: HashFunction<T>, x: T, k: nat)
    requires WellPlaced(s, hash) && FirstStop(s, hash(x, |s|), x, k)
    ensures forall i :: 0 <= i < |s| && s[i].Used? && s[i].element == x ==> i == Probe(hash(x, |s|), k, |s|)
  {
    forall i | 0 <= i < |s| && s[i].Used? && s[i].element == x ensures i == Probe(hash(x, |s|), k, |s|) {
      StopIsPlace(s, hash, x, k, i);
    }
  }

  lemma StoreChangesSet<T(!new)>(s: seq<Slot<T>>, hash: HashFunction<T>, x: T, k: nat, active: bool)
    requires WellPlaced(s, hash) && FirstStop(s, hash(x, |s|), x, k)
    ensures Elements(s[Probe(hash(x, |s|), k, |s|) := Used(x, active)])
            == if active then Elements(s) + {x} else Elements(s) - {x}
  {
    StopIsOnly(s, hash, x, k);
    var p := Probe(hash(x, |s|), k, |s|);
    var t := s[p := Used(x, active)];
    assert t[p] == Used(x, active) && forall i :: 0 <= i < |s| && i != p ==> t[i] == s[i];
    forall y ensures y in Elements(t) <==> if y == x then active else y in Elements(s) {
      if y != x && y in Elements(s) {
        var i :| 0 <= i < |s| && s[i].Used? && s[i].active && s[i].element == y;
        assert t[i] == s[i];
      }
    }
  }

  lemma StoreChangesTombstones<T(!new)>(s: seq<Slot<T>>, hash: HashFunction<T>, x: T, k: nat, active: bool)
    requires WellPlaced(s, hash) && FirstStop(s, hash(x, |s|), x, k)
    ensures Tombstones(s[Probe(hash(x, |s|), k, |s|) := Used(x, active)])
            == if active then Tombstones(s) - {x} else Tombstones(s) + {x}
  {
    StopIsOnly(s, hash, x, k);
    var p := Probe(hash(x, |s|), k, |s|);
    var t := s[p := Used(x, active)];
    assert t[p] == Used(x, active) && forall i :: 0 <= i < |s| && i != p ==> t[i] == s[i];
    forall y ensures y in Tombstones(t) <==> if y == x then !active else y in Tombstones(s) {
      if y != x && y in Tombstones(s) {
        var i :| 0 <= i < |s| && s[i].Used? && !s[i].active && s[i].element == y;
        assert t[i] == s[i];
      }
    }
  }

  /** A taken slot where the probes for x end is a tombstone of x, or x is in the set. */
  lemma StopIsTombstone<T(!new)>(s: seq<Slot<T>>, hash: HashFunction<T>, x: T, k: nat)
    requires WellPlaced(s, hash) && FirstStop(s, hash(x, |s|), x, k)
    ensures s[Probe(hash(x, |s|), k, |s|)].Used? <==> x in Elements(s) + Tombstones(s)
  {
    StopIsOnly(s, hash, x, k);
    var p := Probe(hash(x, |s|), k, |s|);
    if s[p].Used? {
      assert s[p].element == x;
    }
    if i :| 0 <= i < |s| && s[i].Used? && s[i].element == x {
      assert if s[i].active then s[i].element in Elements(s) else s[i].element in Tombstones(s);
    }
  }

  lemma StoreUses<T>(s: seq<Slot<T>>, p: nat, c: Slot<T>)
    requires p < |s| && c.Used?
    ensures |UsedSlots(s[p := c])| == |UsedSlots(s)| + if s[p].Used? then 0 else 1
  {
    assert UsedSlots(s[p := c]) == UsedSlots(s) + {p};
    if s[p].Used? {
      assert UsedSlots(s) + {p} == UsedSlots(s);
    } else {
      assert p !in UsedSlots(s);
    }
  }

  /** The table t is s with x stored where its probes end. */
  ghost predicate Stored<T(!new)>(s: seq<Slot<T>>, hash: HashFunction<T>, x: T, active: bool, t: seq<Slot<T>>) {
    exists k: nat :: FirstStop(s, hash(x, |s|), x, k) && t == s[Probe(hash(x, |s|), k, |s|) := Used(x, active)]
  }

  /** All that an insertion or a removal needs to know of the slot it writes. */
  lemma StoreIsUpdate<T(!new)>(s: seq<Slot<T>>, hash: HashFunction<T>, x: T, active: bool, t: seq<Slot<T>>)
    requires WellPlaced(s, hash) && Stored(s, hash, x, active, t)
    ensures |t| == |s| && WellPlaced(t, hash)
    ensures Elements(t) == if active then Elements(s) + {x} else Elements(s) - {x}
    ensures Tombstones(t) == if active then Tombstones(s) - {x} else Tombstones(s) + {x}
    ensures |UsedSlots(t)| == |UsedSlots(s)| + if x in Elements(s) + Tombstones(s) then 0 else 1
  {
    var k: nat :| FirstStop(s, hash(x, |s|), x, k) && t == s[Probe(hash(x, |s|), k, |s|) := Used(x, active)];
    StopIsTombstone(s, hash, x, k);
    StoreKeepsPlaces(s, hash, x, k, active);
    StoreChangesSet(s, hash, x, k, active);
    StoreChangesTombstones(s, hash, x, k, active);
    StoreUses(s, Probe(hash(x, |s|), k, |s|), Used(x, active));
  }

  lemma EmptyTable<T(!new)>(s: seq<Slot<T>>, hash: HashFunction<T>)
    requires forall i :: 0 <= i < |s| ==> s[i].Free?
    ensures WellPlaced(s, hash) && Elements(s) == {} && Tombstones(s) == {} && UsedSlots(s) == {}
  {}
}
