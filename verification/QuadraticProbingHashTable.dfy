/** The table itself: an array of entries that are replaced, and whose flags are flipped, in place. */
module QuadraticProbingHashTable {
  import opened Basics
  import opened NumberTheory
  import opened QuadraticProbing

  const DEFAULT_TABLE_SIZE := 11

  lemma DefaultSizeIsPrime()
    ensures IsPrime(DEFAULT_TABLE_SIZE)
  {
    TrialPrimeIsPrime(DEFAULT_TABLE_SIZE);
  }

  class HashEntry<T> {
    const element: T
    var isActive: bool

    constructor (e: T, i: bool)
      ensures element == e && isActive == i
    {
      element := e;
      isActive := i;
    }
  }

  method TestPrime(n: int) returns (result: bool)
    requires n >= 1
    ensures result <==> IsPrime(n)
  {
    TrialPrimeIsPrime(n);
    if n == 2 || n == 3 {
      return true;
    }
    if n == 1 || n % 2 == 0 {
      return false;
    }
    var i := 3;
    while i * i <= n
      invariant i >= 3 && NoOddDivisor(n, 3) == NoOddDivisor(n, i)
      decreases n - i
    {
      SquareBound(i, n);
      if n % i == 0 {
        return false;
      }
      i := i + 2;
    }
    return true;
  }

  /** A prime at or above n; apart from 2, the least one. */
  method NextPrime(n: int) returns (p: int)
    requires n >= 1
    ensures p >= n && IsPrime(p) && p % 2 == 1
    ensures NoOddPrime(n, p)
  {
    ghost var bound := OddPrimeAbove(n);
    p := n;
    if p % 2 == 0 {
      p := p + 1;
    }
    NoOddPrimeFrom(n, p);
    var found := TestPrime(p);
    while !found
      invariant p >= n && p % 2 == 1 && p <= bound && (found <==> IsPrime(p)) && NoOddPrime(n, p)
      decreases bound - p
    {
      NoOddPrimeStep(n, p, bound);
      p := p + 2;
      found := TestPrime(p);
    }
  }

  /** No number of n..p-1 other than 2 is prime. */
  ghost predicate NoOddPrime(n: int, p: int) {
    forall q :: n <= q < p && q != 2 ==> !IsPrime(q)
  }

  lemma NoOddPrimeFrom(n: int, p: int)
    requires p == n || (p == n + 1 && n % 2 == 0)
    ensures NoOddPrime(n, p)
  {
    OddPrime(n);
  }

  lemma NoOddPrimeStep(n: int, p: int, bound: int)
    requires NoOddPrime(n, p) && p % 2 == 1 && !IsPrime(p)
    requires p <= bound && bound % 2 == 1 && IsPrime(bound)
    ensures NoOddPrime(n, p + 2) && (p + 2) % 2 == 1 && p + 2 <= bound
  {
    OddPrime(p + 1);
  }

  lemma OddPrimeAbove(n: nat) returns (p: int)
    ensures p > n && IsPrime(p) && p % 2 == 1
  {
    p := PrimesAreUnbounded(n + 3);
    OddPrime(p);
  }

  lemma OddPrime(q: int)
    ensures IsPrime(q) && q != 2 ==> q % 2 == 1
  {
    if IsPrime(q) && q != 2 {
      assert !Divides(2, q);
    }
  }

  /** The array a, over some of the given objects, agrees with the slots s entry by entry. */
  ghost predicate Mirrors<T>(a: array<HashEntry?<T>>, s: seq<Slot<T>>, objects: set<object>)
    reads a, objects
  {
    a.Length == |s| &&
    forall i :: 0 <= i < |s| ==>
      if a[i] == null then s[i].Free? else a[i] in objects && s[i] == Used(a[i].element, a[i].isActive)
  }

  class QuadraticProbingHashTable<T(==,!new)> {
    const hash: HashFunction<T>
    var entries: array<HashEntry?<T>>
    var currentSize: nat

    /** The contents of the array, entry by entry. */
    ghost var slots: seq<Slot<T>>
    /** How many elements have taken over their own tombstones since the table was last empty or rehashed. */
    ghost var reused: nat
    ghost var Repr: set<object>

    ghost predicate Shaped()
      reads this, Repr
    {
      this in Repr && entries in Repr && (entries as object) != this && Mirrors(entries, slots, Repr - {this, entries})
    }

    /** currentSize counts the taken slots, and again every tombstone that was taken over by its own element. */
    ghost predicate Consistent()
      reads this, Repr
    {
      && Shaped()
      && GoodHash(hash)
      && WellPlaced(slots, hash)
      && entries.Length > 0
      && currentSize == |UsedSlots(slots)| + reused
    }

    /** The invariant between public operations. */
    ghost predicate Valid()
      reads this, Repr
    {
      Consistent() && currentSize <= entries.Length / 2
    }

    constructor (size: nat, hash: HashFunction<T>)
      requires GoodHash(hash)
      ensures fresh(Repr) && this.hash == hash && entries.Length == size && slots == seq(size, _ => Free)
      ensures size > 0 ==> Valid() && Elements(slots) == Tombstones(slots) == {} && currentSize == 0
    {
      this.hash := hash;
      new;
      AllocateArray(size);
      MakeEmpty();
    }

    constructor Default(hash: HashFunction<T>)
      requires GoodHash(hash)
      ensures Valid() && fresh(Repr) && this.hash == hash && GoodSize(entries.Length)
      ensures Elements(slots) == Tombstones(slots) == {} && currentSize == 0 && entries.Length == 11
    {
      this.hash := hash;
      new;
      DefaultSizeIsPrime();
      AllocateArray(DEFAULT_TABLE_SIZE);
      MakeEmpty();
    }

    /** Where the probes for x end; not found if they leave the array. */
    method FindPos(x: T) returns (found: bool, currentPos: nat, ghost probes: nat)
      requires Valid()
      ensures found <==> !SearchFails(slots, hash(x, |slots|), x)
      ensures found ==> FirstStop(slots, hash(x, |slots|), x, probes)
      ensures found ==> currentPos == Probe(hash(x, |slots|), probes, |slots|)
      ensures GoodSize(|slots|) ==> found && probes <= |slots| / 2
    {
      ghost var h := hash(x, entries.Length);
      var collisionNum := 0;
      currentPos := hash(x, entries.Length);
      DivModUnique(h, entries.Length, 0, h);
      while entries[currentPos] != null && entries[currentPos].element != x
        invariant currentPos == Probe(h, collisionNum, |slots|) && Searched(slots, h, x, collisionNum)
        decreases |slots| - collisionNum
      {
        SearchStep(slots, h, x, collisionNum, currentPos);
        collisionNum := collisionNum + 1;
        currentPos := currentPos + 2 * collisionNum - 1;
        if currentPos >= entries.Length {
          currentPos := currentPos - entries.Length;
        }
        if currentPos >= entries.Length {
          SearchLeaves(slots, h, x, collisionNum - 1);
          return false, currentPos, collisionNum - 1;
        }
      }
      found, probes := true, collisionNum;
      SearchStops(slots, h, x, probes);
    }

    predicate IsActive(currentPos: nat)
      requires currentPos < entries.Length
      reads this, entries, entries[currentPos]
    {
      entries[currentPos] != null && entries[currentPos].isActive
    }

    method Find(x: T) returns (failed: bool, r: Option<T>)
      requires Valid()
      ensures failed <==> SearchFails(slots, hash(x, |slots|), x)
      ensures !failed ==> r == if x in Elements(slots) then Some(x) else None
      ensures GoodSize(entries.Length) ==> !failed
    {
      var found, currentPos, probes := FindPos(x);
      if !found {
        return true, None;
      }
      StopDecides(slots, hash, x, probes);
      r := if IsActive(currentPos) then Some(entries[currentPos].element) else None;
      failed := false;
    }

    method Remove(x: T) returns (failed: bool)
      requires Valid()
      modifies Repr
      ensures Valid() && Repr == old(Repr) && entries == old(entries)
      ensures currentSize == old(currentSize) && reused == old(reused)
      ensures failed <==> old(SearchFails(slots, hash(x, |slots|), x))
      ensures failed || x !in old(Elements(slots)) ==> slots == old(slots)
      ensures !failed && x in old(Elements(slots)) ==> Stored(old(slots), hash, x, false, slots)
      ensures !failed ==> Elements(slots) == old(Elements(slots)) - {x}
      ensures !failed && x in old(Elements(slots)) ==> Tombstones(slots) == old(Tombstones(slots)) + {x}
      ensures GoodSize(entries.Length) ==> !failed
    {
      var found, currentPos, probes := FindPos(x);
      if !found {
        return true;
      }
      StopDecides(slots, hash, x, probes);
      if IsActive(currentPos) {
        ghost var t := slots[currentPos := Used(x, false)];
        StoreIsUpdate(slots, hash, x, false, t);
        entries[currentPos].isActive := false;
        slots := t;
      }
      failed := false;
    }

    /** Adds x: nothing to do if it is there, else it takes a slot or its own tombstone, and a table more than
        half full by the count moves to a longer one. */
    method Insert(x: T) returns (failed: bool)
      requires Valid()
      modifies Repr
      ensures Valid() && fresh(Repr - old(Repr))
      ensures failed <==> old(SearchFails(slots, hash(x, |slots|), x))
      ensures failed || x in old(Elements(slots)) ==>
                entries == old(entries) && slots == old(slots) && currentSize == old(currentSize) &&
                reused == old(reused)
      ensures !failed ==> Elements(slots) == old(Elements(slots)) + {x}
      ensures !failed && x !in old(Elements(slots)) && old(currentSize) + 1 <= old(entries.Length) / 2 ==>
                entries == old(entries) && Stored(old(slots), hash, x, true, slots) &&
                Tombstones(slots) == old(Tombstones(slots)) - {x} && currentSize == old(currentSize) + 1 &&
                reused == old(reused) + if x in old(Tombstones(slots)) then 1 else 0
      ensures !failed && x !in old(Elements(slots)) && old(currentSize) + 1 > old(entries.Length) / 2 ==>
                IsPrime(entries.Length) && entries.Length >= 2 * old(entries.Length) && Exact() &&
                NoOddPrime(2 * old(entries.Length), entries.Length)
      ensures old(GoodSize(entries.Length)) ==> !failed && GoodSize(entries.Length)
      decreases if currentSize + 1 <= entries.Length / 2 then 0 else 2, 0
    {
      var added;
      failed, added := Place(x);
      if added && currentSize > entries.Length / 2 {
        Rehash();
      }
    }

    /** The insertion itself, before the load is looked at. */
    method Place(x: T) returns (failed: bool, added: bool)
      requires Valid()
      modifies this, entries
      ensures Consistent() && fresh(Repr - old(Repr)) && entries == old(entries)
      ensures failed <==> old(SearchFails(slots, hash(x, |slots|), x))
      ensures added <==> !failed && x !in old(Elements(slots))
      ensures !added ==> slots == old(slots) && currentSize == old(currentSize) && reused == old(reused) && Valid()
      ensures added ==>
                Stored(old(slots), hash, x, true, slots) && Elements(slots) == old(Elements(slots)) + {x} &&
                Tombstones(slots) == old(Tombstones(slots)) - {x} && currentSize == old(currentSize) + 1 &&
                reused == old(reused) + if x in old(Tombstones(slots)) then 1 else 0
      ensures GoodSize(entries.Length) ==> !failed
    {
      var found, currentPos, probes := FindPos(x);
      failed, added := !found, false;
      if found {
        StopDecides(slots, hash, x, probes);
        if !IsActive(currentPos) {
          Occupy(x, currentPos);
          added := true;
        }
      }
    }

    /** Takes the slot where the probes for x end. */
    method Occupy(x: T, currentPos: nat)
      requires Consistent() && x !in Elements(slots)
      requires exists k: nat ::
                 FirstStop(slots, hash(x, |slots|), x, k) &&
                 currentPos == Probe(hash(x, |slots|), k, |slots|)
      modifies this, entries
      ensures Consistent() && fresh(Repr - old(Repr)) && entries == old(entries)
      ensures Stored(old(slots), hash, x, true, slots) && Elements(slots) == old(Elements(slots)) + {x}
      ensures Tombstones(slots) == old(Tombstones(slots)) - {x} && currentSize == old(currentSize) + 1
      ensures reused == old(reused) + if x in old(Tombstones(slots)) then 1 else 0
    {
      ghost var t := slots[currentPos := Used(x, true)];
      StoreIsUpdate(slots, hash, x, true, t);
      var entry := new HashEntry(x, true);
      entries[currentPos] := entry;
      Repr := Repr + {entry};
      reused := reused + if x in Tombstones(slots) then 1 else 0;
      slots := t;
      currentSize := currentSize + 1;
    }

    method AllocateArray(arraySize: nat)
      modifies this
      ensures entries.Length == arraySize && Repr == {this, entries} && fresh(entries)
      ensures slots == seq(arraySize, _ => Free) && Shaped() && reused == 0
      ensures currentSize == old(currentSize)
      ensures WellPlaced(slots, hash) && Elements(slots) == {} && Tombstones(slots) == {} && UsedSlots(slots) == {}
    {
      entries := new HashEntry?<T>[arraySize](_ => null);
      slots := seq(arraySize, _ => Free);
      Repr := {this, entries};
      reused := 0;
      EmptyTable(slots, hash);
    }

    /** Moves the active elements to a table of prime length, at least twice as long; their count is then exact. */
    method Rehash()
      requires Consistent()
      modifies Repr
      ensures Valid() && fresh(Repr - old(Repr))
      ensures Elements(slots) == old(Elements(slots)) && Exact()
      ensures IsPrime(entries.Length) && entries.Length >= 2 * old(entries.Length)
      ensures NoOddPrime(2 * old(entries.Length), entries.Length)
      decreases 1, 3
    {
      var oldArray := entries;
      ghost var oldSlots, left := slots, Repr - {this, entries};
      var p := NextPrime(2 * oldArray.Length);
      AllocateArray(p);
      currentSize := 0;
      CopyAll(oldArray, oldSlots, left);
    }

    /** Copies the active entries of the table that is being left. */
    method CopyAll(oldArray: array<HashEntry?<T>>, ghost oldSlots: seq<Slot<T>>, ghost left: set<object>)
      requires Valid() && Exact() && IsPrime(entries.Length) && 2 * oldArray.Length <= entries.Length
      requires Mirrors(oldArray, oldSlots, left) && WellPlaced(oldSlots, hash)
      requires oldArray !in Repr && left !! Repr && Elements(slots) == {}
      modifies Repr
      ensures Valid() && Exact() && fresh(Repr - old(Repr)) && entries == old(entries)
      ensures Elements(slots) == Elements(oldSlots)
      decreases 1, 2
    {
      assert Elements(oldSlots[..0]) == {};
      for i := 0 to oldArray.Length
        invariant Valid() && Exact() && fresh(Repr - old(Repr)) && entries == old(entries)
        invariant Mirrors(oldArray, oldSlots, left) && currentSize <= i && Elements(slots) == Elements(oldSlots[..i])
      {
        CopyOne(oldArray, i, oldSlots, left);
      }
      assert oldSlots[..oldArray.Length] == oldSlots;
    }

    /** Copies what entry i of the table that is being left holds, if it is active. */
    method CopyOne(oldArray: array<HashEntry?<T>>, i: nat, ghost oldSlots: seq<Slot<T>>, ghost left: set<object>)
      requires Valid() && Exact() && IsPrime(entries.Length) && 2 * oldArray.Length <= entries.Length
      requires i < oldArray.Length && Mirrors(oldArray, oldSlots, left) && WellPlaced(oldSlots, hash)
      requires oldArray !in Repr && left !! Repr && currentSize <= i && Elements(slots) == Elements(oldSlots[..i])
      modifies Repr
      ensures Valid() && Exact() && fresh(Repr - old(Repr)) && entries == old(entries)
      ensures currentSize <= i + 1 && Elements(slots) == Elements(oldSlots[..i + 1])
      decreases 1, 1
    {
      PrefixElements(oldSlots, i);
      if oldArray[i] != null && oldArray[i].isActive {
        ElementsDiffer(oldSlots, hash, i);
        Carry(oldArray[i].element);
      }
    }

    /** No tombstones, and every element counted once. */
    ghost predicate Exact()
      reads this
    {
      Tombstones(slots) == {} && currentSize == |Elements(slots)| && reused == 0
    }

    /** Inserts an element of the table that is being left. */
    method Carry(x: T)
      requires Valid() && Exact() && IsPrime(entries.Length)
      requires x !in Elements(slots) && currentSize + 1 <= entries.Length / 2
      modifies Repr
      ensures Valid() && Exact() && fresh(Repr - old(Repr)) && entries == old(entries)
      ensures Elements(slots) == old(Elements(slots)) + {x} && currentSize == old(currentSize) + 1
      decreases 1, 0
    {
      var failed := Insert(x);
    }

    method MakeEmpty()
      requires Shaped() && GoodHash(hash)
      modifies this, entries
      ensures Shaped() && Repr == old(Repr) && entries == old(entries)
      ensures slots == seq(entries.Length, _ => Free) && Elements(slots) == Tombstones(slots) == {}
      ensures currentSize == 0 && reused == 0
      ensures entries.Length > 0 ==> Valid()
    {
      currentSize, reused := 0, 0;
      for i := 0 to entries.Length
        invariant entries == old(entries) && currentSize == 0 && reused == 0 && Repr == old(Repr)
        invariant forall j :: 0 <= j < i ==> entries[j] == null
      {
        entries[i] := null;
      }
      slots := seq(entries.Length, _ => Free);
      EmptyTable(slots, hash);
    }
  }

  /** The elements of a table all differ. */
  lemma ElementsDiffer<T(!new)>(s: seq<Slot<T>>, hash: HashFunction<T>, i: nat)
    requires WellPlaced(s, hash) && i < |s| && s[i].Used?
    ensures s[i].element !in Elements(s[..i])
  {}

  lemma PrefixElements<T>(s: seq<Slot<T>>, i: nat)
    requires i < |s|
    ensures Elements(s[..i + 1])
            == if s[i].Used? && s[i].active then Elements(s[..i]) + {s[i].element} else Elements(s[..i])
  {}

  // ---------- Whole runs ----------

  datatype Op<T> = InsertOp(x: T) | RemoveOp(x: T) | FindOp(x: T) | MakeEmptyOp

  ghost function ApplyOne<T>(s: set<T>, op: Op<T>): set<T> {
    match op
    case InsertOp(x) => s + {x}
    case RemoveOp(x) => s - {x}
    case FindOp(_) => s
    case MakeEmptyOp => {}
  }

  /** The set after a run of operations on the set s. */
  ghost function Apply<T>(s: set<T>, ops: seq<Op<T>>): set<T> {
    if ops == [] then s else ApplyOne(Apply(s, ops[..|ops| - 1]), ops[|ops| - 1])
  }

  lemma ApplyPrefix<T>(s: set<T>, ops: seq<Op<T>>, i: nat)
    requires i < |ops|
    ensures Apply(s, ops[..i + 1]) == ApplyOne(Apply(s, ops[..i]), ops[i])
  {
    assert ops[..i + 1][..i] == ops[..i];
  }

  /** What a search in the plain set s answers. */
  ghost function Answer<T>(s: set<T>, op: Op<T>): Option<T> {
    if op.FindOp? && op.x in s then Some(op.x) else None
  }

  /** Whether op has to look for its element, and the search leaves the array. */
  ghost predicate Fails<T(!new)>(s: seq<Slot<T>>, hash: HashFunction<T>, op: Op<T>) {
    !op.MakeEmptyOp? && SearchFails(s, hash(op.x, |s|), op.x)
  }

  method Perform<T(==,!new)>(table: QuadraticProbingHashTable<T>, op: Op<T>) returns (failed: bool, answer: Option<T>)
    requires table.Valid()
    modifies table.Repr
    ensures table.Valid() && fresh(table.Repr - old(table.Repr))
    ensures failed <==> old(Fails(table.slots, table.hash, op))
    ensures failed ==> table.slots == old(table.slots)
    ensures !failed ==> Elements(table.slots) == ApplyOne(old(Elements(table.slots)), op)
    ensures !failed ==> answer == Answer(old(Elements(table.slots)), op)
    ensures old(GoodSize(table.entries.Length)) ==> !failed && GoodSize(table.entries.Length)
  {
    failed, answer := false, None;
    match op {
      case InsertOp(x) => failed := table.Insert(x);
      case RemoveOp(x) => failed := table.Remove(x);
      case FindOp(x) => failed, answer := table.Find(x);
      case MakeEmptyOp => table.MakeEmpty();
    }
  }

  /** The answers so far are those of the plain set at the time. */
  ghost predicate AllAnswered<T>(s: set<T>, ops: seq<Op<T>>, answers: seq<Option<T>>) {
    |answers| <= |ops| && forall i :: 0 <= i < |answers| ==> answers[i] == Answer(Apply(s, ops[..i]), ops[i])
  }

  /** The table and the answers after the first operations of a run. */
  ghost predicate Underway<T(!new)>(table: QuadraticProbingHashTable<T>, s: set<T>, good: bool, ops: seq<Op<T>>,
                                    answers: seq<Option<T>>)
    reads table, table.Repr
  {
    table.Valid() && AllAnswered(s, ops, answers) && (good ==> GoodSize(table.entries.Length)) &&
    Elements(table.slots) == Apply(s, ops[..|answers|])
  }

  method PerformNext<T(==,!new)>(table: QuadraticProbingHashTable<T>, ops: seq<Op<T>>, answers: seq<Option<T>>,
                                 ghost s: set<T>, ghost good: bool)
    returns (failed: bool, answer: Option<T>)
    requires Underway(table, s, good, ops, answers) && |answers| < |ops|
    modifies table.Repr
    ensures fresh(table.Repr - old(table.Repr)) && (good ==> !failed)
    ensures if failed then Underway(table, s, good, ops, answers) && Fails(table.slots, table.hash, ops[|answers|])
            else Underway(table, s, good, ops, answers + [answer])
  {
    ApplyPrefix(s, ops, |answers|);
    failed, answer := Perform(table, ops[|answers|]);
  }

  /** Over any run, rehashes included, the table holds the set that a plain set would hold,
      and answers every search as the plain set would. In a table of good length no operation fails;
      in any other a run ends with the first one that does. */
  method Run<T(==,!new)>(table: QuadraticProbingHashTable<T>, ops: seq<Op<T>>) returns (answers: seq<Option<T>>)
    requires table.Valid()
    modifies table.Repr
    ensures table.Valid() && fresh(table.Repr - old(table.Repr))
    ensures |answers| <= |ops| && (old(GoodSize(table.entries.Length)) ==> |answers| == |ops|)
    ensures |answers| < |ops| ==> Fails(table.slots, table.hash, ops[|answers|])
    ensures Elements(table.slots) == Apply(old(Elements(table.slots)), ops[..|answers|])
    ensures AllAnswered(old(Elements(table.slots)), ops, answers)
  {
    answers := [];
    ghost var s0 := Elements(table.slots);
    ghost var good := GoodSize(table.entries.Length);
    for i := 0 to |ops|
      invariant fresh(table.Repr - old(table.Repr)) && |answers| == i && Underway(table, s0, good, ops, answers)
    {
      var failed, answer := PerformNext(table, ops, answers, s0, good);
      if failed {
        return;
      }
      answers := answers + [answer];
    }
  }

  /** An element that is inserted, removed and inserted again is counted twice, though it takes one slot. */
  method CountedTwice<T(==,!new)>(hash: HashFunction<T>, x: T) returns (table: QuadraticProbingHashTable<T>)
    requires GoodHash(hash)
    ensures table.Valid() && Elements(table.slots) == {x} && |UsedSlots(table.slots)| == 1 && table.currentSize == 2
  {
    table := new QuadraticProbingHashTable.Default(hash);
    var failed := table.Insert(x);
    failed := table.Remove(x);
    failed := table.Insert(x);
  }
}
