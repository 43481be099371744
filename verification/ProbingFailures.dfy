/** What happens in a table whose length is not good for probing: a few insertions, and a search leaves the array. */
module ProbingFailures {
  import opened NumberTheory
  import opened QuadraticProbing
  import Table = QuadraticProbingHashTable

  /** Numbers hashed to their remainders. */
  function Home(x: int, n: nat): nat {
    if n > 0 then x % n else 0
  }

  /** Every probe from h is one of the first n/2+1. */
  lemma ProbedEarly(h: nat, t: nat, n: nat)
    requires n > 0
    ensures Probe(h, t, n) in Probed(h, n / 2 + 1, n)
  {
    var r := t % n;
    SameProbe(h, t, r, t / n, n);
    if r <= n / 2 {
      ProbedListed(h, r, n / 2 + 1, n);
    } else {
      MirroredProbe(h, r, n);
      ProbedListed(h, n - r, n / 2 + 1, n);
    }
  }

  lemma SameProbe(h: nat, t: nat, r: nat, q: nat, n: nat)
    requires n > 0 && t == q * n + r
    ensures Probe(h, t, n) == Probe(h, r, n)
  {
    ProbesMeet(h, r, t, n);
    assert (t - r) * (t + r) == (q * (t + r)) * n by {
      assert t - r == q * n;
      assert (q * n) * (t + r) == (q * (t + r)) * n;
    }
    DividesMultiple(n, q * (t + r));
  }

  lemma MirroredProbe(h: nat, r: nat, n: nat)
    requires n > 0 && r <= n
    ensures Probe(h, r, n) == Probe(h, n - r, n)
  {
    ProbesMeet(h, r, n - r, n);
    assert n - r + r == n;
    DividesMultiple(n, n - r - r);
  }

  lemma {:induction false} ProbedListed(h: nat, t: nat, k: nat, n: nat)
    requires n > 0 && t < k
    ensures Probe(h, t, n) in Probed(h, k, n)
  {
    if t < k - 1 {
      ProbedListed(h, t, k - 1, n);
    }
  }

  lemma {:induction false} ProbedBound(h: nat, k: nat, n: nat)
    requires n > 0
    ensures |Probed(h, k, n)| <= k
  {
    if k > 0 {
      ProbedBound(h, k - 1, n);
    }
  }

  /** Two probes that meet take one slot together. */
  lemma {:induction false} ProbedCollides(h: nat, i: nat, j: nat, k: nat, n: nat)
    requires n > 0 && i < j < k && Probe(h, i, n) == Probe(h, j, n)
    ensures |Probed(h, k, n)| <= k - 1
  {
    if j == k - 1 {
      ProbedBound(h, k - 1, n);
      ProbedListed(h, i, k - 1, n);
      assert Probed(h, k, n) == Probed(h, k - 1, n);
    } else {
      ProbedCollides(h, i, j, k - 1, n);
    }
  }

  /** The first k probes from 0 meet at most half of the slots. */
  ghost predicate AtMostHalf(k: nat, n: nat)
    requires n > 0
  {
    forall t: nat :: t <= k ==> |Probed(0, t, n)| <= n / 2
  }

  /** At a bad length that holds for the first n/2+1 probes, and so for all. */
  lemma BadSizeHalf(n: nat)
    requires n >= 1 && !GoodSize(n)
    ensures AtMostHalf(n / 2 + 1, n)
  {
    var i, j := ProbesCollide(n);
    forall t: nat | t <= n / 2 + 1 ensures |Probed(0, t, n)| <= n / 2 {
      ProbedBound(0, t, n);
      if t == n / 2 + 1 {
        ProbedCollides(0, i, j, t, n);
      }
    }
  }

  /** The table that holds, each in its own slot, the first k probes from 0. */
  ghost function Filled(k: nat, n: nat): (s: seq<Slot<int>>)
    requires n > 0
    ensures |s| == n && forall i :: 0 <= i < n ==> s[i] == if i in Probed(0, k, n) then Used(i, true) else Free
  {
    seq(n, i => if i in Probed(0, k, n) then Used(i, true) else Free)
  }

  lemma ProbedInTable(h: nat, k: nat, n: nat, p: int)
    requires n > 0 && p in Probed(h, k, n)
    ensures 0 <= p < n
  {
    var j := ProbedMember(h, k, n, p);
  }

  lemma FilledIsTable(k: nat, n: nat)
    requires n > 0
    ensures WellPlaced(Filled(k, n), Home) && UsedSlots(Filled(k, n)) == Elements(Filled(k, n)) == Probed(0, k, n)
    ensures Tombstones(Filled(k, n)) == {}
  {
    var s := Filled(k, n);
    forall i | 0 <= i < n && s[i].Used? ensures Reached(s, Home(s[i].element, n), i) {
      HomeSlot(s, i, i);
    }
    forall p ensures p in Probed(0, k, n) <==> p in UsedSlots(s) {
      if p in Probed(0, k, n) {
        ProbedInTable(0, k, n, p);
      }
    }
    forall p ensures p in UsedSlots(s) <==> p in Elements(s) {
      if p in UsedSlots(s) {
        assert s[p] == Used(p, true);
      }
    }
  }

  /** A number below n stops in its own slot if that is free or its own. */
  lemma HomeSlot(s: seq<Slot<int>>, p: nat, x: int)
    requires p == x < |s| && (s[p].Free? || s[p].element == x)
    ensures Home(x, |s|) == p && Probe(p, 0, |s|) == p && FirstStop(s, Home(x, |s|), x, 0) && StaysIn(p, 0, |s|)
  {
    DivModUnique(p, |s|, 0, p);
  }

  /** The search for n, which starts at 0, meets none but taken slots, and sooner or later adds too much. */
  lemma FilledFails(n: nat)
    requires n >= 1
    ensures SearchFails(Filled(n / 2 + 1, n), 0, n)
  {
    var s := Filled(n / 2 + 1, n);
    forall t: nat ensures !Stops(s, n, Probe(0, t, n)) {
      ProbedEarly(0, t, n);
    }
    LeavesFrom(s, 0, n, 0);
  }

  /** A search that never stops leaves the table, at the latest when the step alone is twice its length. */
  lemma LeavesFrom(s: seq<Slot<int>>, h: nat, x: int, k: nat)
    requires StaysIn(h, k, |s|) && k <= |s| && forall t: nat :: !Stops(s, x, Probe(h, t, |s|))
    ensures SearchFails(s, h, x)
    decreases |s| - k
  {
    if Probe(h, k, |s|) + 2 * k + 1 >= 2 * |s| {
      assert LeavesAt(s, h, x, k);
    } else {
      LeavesFrom(s, h, x, k + 1);
    }
  }

  /** The good lengths are exactly those at which no search in a table at most half full ever fails. */
  lemma SearchesEndExactly(n: nat)
    requires n >= 1
    ensures GoodSize(n) <==>
            forall s: seq<Slot<int>>, h: nat, x: int ::
              |s| == n && |UsedSlots(s)| <= n / 2 && WellPlaced(s, Home) ==> !SearchFails(s, h, x)
  {
    if GoodSize(n) {
      forall s: seq<Slot<int>>, h: nat, x: int | |s| == n && |UsedSlots(s)| <= n / 2 && WellPlaced(s, Home)
        ensures !SearchFails(s, h, x)
      {
        GoodSizeSearches(s, h, x);
      }
    } else {
      var s := Filled(n / 2 + 1, n);
      BadSizeHalf(n);
      FilledIsTable(n / 2 + 1, n);
      FilledFails(n);
    }
  }

  /** What inserting the number Probe(0, t, n) does to the table of the numbers before it. */
  lemma FilledGrows(t: nat, n: nat, x: int, s: seq<Slot<int>>)
    requires n > 0 && x == Probe(0, t, n)
    ensures !SearchFails(Filled(t, n), Home(x, n), x)
    ensures x in Elements(Filled(t, n)) ==> Filled(t + 1, n) == Filled(t, n)
    ensures x !in Elements(Filled(t, n)) && Stored(Filled(t, n), Home, x, true, s) ==> s == Filled(t + 1, n)
  {
    var f := Filled(t, n);
    FilledIsTable(t, n);
    HomeSlot(f, x, x);
    StoppedOrFailed(f, x, x, 0);
    if x in Probed(0, t, n) {
      assert Filled(t + 1, n) == f;
    } else if Stored(f, Home, x, true, s) {
      var k: nat :| FirstStop(f, Home(x, n), x, k) && s == f[Probe(Home(x, n), k, n) := Used(x, true)];
      FirstStopUnique(f, x, x, k, 0);
      assert Filled(t + 1, n) == s;
    }
  }

  lemma FirstStopUnique(s: seq<Slot<int>>, h: nat, x: int, k: nat, l: nat)
    requires FirstStop(s, h, x, k) && FirstStop(s, h, x, l)
    ensures k == l
  {}

  /** The table holds the first t probes from 0, and counts them. */
  ghost predicate InStep(table: Table.QuadraticProbingHashTable<int>, n: nat, t: nat)
    reads table
  {
    n >= 1 && table.slots == Filled(t, n) && table.currentSize == |Probed(0, t, n)|
  }

  method InsertProbe(table: Table.QuadraticProbingHashTable<int>, n: nat, t: nat, ghost good: bool)
    requires table.Valid() && table.hash == Home && n >= 1
    requires if good then GoodSize(table.entries.Length) else InStep(table, n, t) && |Probed(0, t + 1, n)| <= n / 2
    modifies table.Repr
    ensures table.Valid() && fresh(table.Repr - old(table.Repr))
    ensures if good then GoodSize(table.entries.Length) else InStep(table, n, t + 1)
  {
    var x := Probe(0, t, n);
    ghost var s := table.slots;
    if !good {
      FilledIsTable(t, n);
      FilledGrows(t, n, x, s);
    }
    var failed := table.Insert(x);
    if !good {
      assert table.entries.Length == n;
      FilledGrows(t, n, x, table.slots);
    }
  }

  method FillTable(table: Table.QuadraticProbingHashTable<int>, n: nat, k: nat, ghost good: bool)
    requires table.Valid() && table.hash == Home && n >= 1
    requires if good then GoodSize(table.entries.Length) else InStep(table, n, 0) && AtMostHalf(k, n)
    modifies table.Repr
    ensures table.Valid() && fresh(table.Repr - old(table.Repr))
    ensures if good then GoodSize(table.entries.Length) else InStep(table, n, k)
  {
    for t := 0 to k
      invariant table.Valid() && fresh(table.Repr - old(table.Repr))
      invariant if good then GoodSize(table.entries.Length) else InStep(table, n, t)
    {
      InsertProbe(table, n, t, good);
    }
  }

  /** A new table, with the probed positions inserted. */
  method NewFilled(n: nat, ghost good: bool) returns (table: Table.QuadraticProbingHashTable<int>)
    requires n >= 1 && good == GoodSize(n)
    ensures table.Valid() && fresh(table.Repr) && table.hash == Home
    ensures if good then GoodSize(table.entries.Length) else table.slots == Filled(n / 2 + 1, n)
  {
    table := new Table.QuadraticProbingHashTable<int>(n, Home);
    assert table.slots == Filled(0, n);
    if !good {
      BadSizeHalf(n);
    }
    FillTable(table, n, n / 2 + 1, good);
  }

  /** Inserting the numbers 0, 1, 4, 9, ... reduced modulo the size, and then the size itself, into a new table:
      the last insertion fails exactly if the size is not a good one. */
  method RunOfInsertions(n: nat) returns (failed: bool)
    requires n >= 1
    ensures failed <==> !GoodSize(n)
  {
    ghost var good := GoodSize(n);
    var table := NewFilled(n, good);
    FilledFails(n);
    DivModUnique(n, n, 1, 0);
    failed := table.Insert(n);
  }
}
