/** What an LRU cache holds: keys and values, most recently used first. */
module RecencyList {
  import opened Basics

  type Entries<K, V> = seq<(K, V)>

  ghost predicate Distinct<K, V>(s: Entries<K, V>) {
    forall i, j :: 0 <= i < j < |s| ==> s[i].0 != s[j].0
  }

  ghost predicate Has<K, V>(s: Entries<K, V>, k: K) {
    exists i :: 0 <= i < |s| && s[i].0 == k
  }

  ghost function IndexOf<K, V>(s: Entries<K, V>, k: K): (i: nat)
    requires Has(s, k)
    ensures i < |s| && s[i].0 == k
  {
    var i :| 0 <= i < |s| && s[i].0 == k; i
  }

  ghost function RemoveAt<T>(s: seq<T>, i: nat): seq<T>
    requires i < |s|
  {
    s[..i] + s[i + 1..]
  }

  // ---------- The operations ----------

  ghost function Get<K, V>(s: Entries<K, V>, k: K): Entries<K, V> {
    if Has(s, k) then [s[IndexOf(s, k)]] + RemoveAt(s, IndexOf(s, k)) else s
  }

  ghost function Lookup<K, V>(s: Entries<K, V>, k: K): Option<V> {
    if Has(s, k) then Some(s[IndexOf(s, k)].1) else None
  }

  /** Making room drops the last entry, and only when the cache is full. */
  ghost function Trim<K, V>(s: Entries<K, V>, capacity: nat): Entries<K, V> {
    if |s| >= capacity && s != [] then s[..|s| - 1] else s
  }

  /** A cache of capacity 0 is always full, and has no entry to drop. */
  ghost predicate PutFails<K, V>(s: Entries<K, V>, capacity: nat, k: K) {
    capacity == 0 && !Has(s, k)
  }

  ghost function Put<K, V>(s: Entries<K, V>, capacity: nat, k: K, v: V): Entries<K, V> {
    if PutFails(s, capacity, k) then s
    else [(k, v)] + if Has(s, k) then RemoveAt(s, IndexOf(s, k)) else Trim(s, capacity)
  }

  ghost function Remove<K, V>(s: Entries<K, V>, k: K): Entries<K, V> {
    if Has(s, k) then RemoveAt(s, IndexOf(s, k)) else s
  }

  // ---------- What a look-up finds ----------

  lemma LookupAt<K, V>(s: Entries<K, V>, i: nat)
    requires Distinct(s) && i < |s|
    ensures Has(s, s[i].0) && IndexOf(s, s[i].0) == i && Lookup(s, s[i].0) == Some(s[i].1)
  {}

  lemma LookupWithout<K, V>(s: Entries<K, V>, i: nat, l: K)
    requires Distinct(s) && i < |s|
    ensures Distinct(RemoveAt(s, i)) && !Has(RemoveAt(s, i), s[i].0)
    ensures Lookup(RemoveAt(s, i), l) == if l == s[i].0 then None else Lookup(s, l)
  {
    var t := RemoveAt(s, i);
    if Has(s, l) && l != s[i].0 {
      var j := IndexOf(s, l);
      LookupAt(t, if j < i then j else j - 1);
    }
    assert forall j :: 0 <= j < |t| ==> t[j] == s[if j < i then j else j + 1];
  }

  lemma LookupInFront<K, V>(s: Entries<K, V>, k: K, v: V, l: K)
    requires Distinct(s) && !Has(s, k)
    ensures Distinct([(k, v)] + s) && Lookup([(k, v)] + s, l) == if l == k then Some(v) else Lookup(s, l)
  {
    var t := [(k, v)] + s;
    assert Distinct(t) by {
      forall i, j | 0 <= i < j < |t| ensures t[i].0 != t[j].0 {
        assert t[j] == s[j - 1];
      }
    }
    LookupAt(t, 0);
    if Has(s, l) {
      LookupAt(t, IndexOf(s, l) + 1);
    }
    assert forall j :: 0 < j < |t| ==> t[j] == s[j - 1];
  }

  /** After a put its key has the value that was put. Any other key has the value it had, save that of the last entry
      of a full list if the key was new. */
  lemma LookupAfterPut<K, V>(s: Entries<K, V>, capacity: nat, k: K, v: V, l: K)
    requires Distinct(s) && !PutFails(s, capacity, k)
    ensures Distinct(Put(s, capacity, k, v))
    ensures var lost := !Has(s, k) && |s| >= capacity && s != [] && l == s[|s| - 1].0;
            Lookup(Put(s, capacity, k, v), l) == if l == k then Some(v) else if lost then None else Lookup(s, l)
  {
    if Has(s, k) {
      LookupWithout(s, IndexOf(s, k), l);
      LookupInFront(RemoveAt(s, IndexOf(s, k)), k, v, l);
    } else {
      if |s| >= capacity && s != [] {
        LookupWithout(s, |s| - 1, l);
        assert Trim(s, capacity) == RemoveAt(s, |s| - 1);
      }
      LookupInFront(Trim(s, capacity), k, v, l);
    }
  }

  /** A get changes no value. */
  lemma LookupAfterGet<K, V>(s: Entries<K, V>, k: K, l: K)
    requires Distinct(s)
    ensures Distinct(Get(s, k)) && Lookup(Get(s, k), l) == Lookup(s, l)
  {
    if Has(s, k) {
      var i := IndexOf(s, k);
      LookupWithout(s, i, l);
      LookupInFront(RemoveAt(s, i), k, s[i].1, l);
    }
  }

  /** After a removal its key is gone, and any other key has the value it had. */
  lemma LookupAfterRemove<K, V>(s: Entries<K, V>, k: K, l: K)
    requires Distinct(s)
    ensures Distinct(Remove(s, k)) && Lookup(Remove(s, k), l) == if l == k then None else Lookup(s, l)
  {
    if Has(s, k) {
      LookupWithout(s, IndexOf(s, k), l);
    }
  }

  /** s holds the keys and values of the map m. */
  ghost predicate LooksUp<K, V>(s: Entries<K, V>, m: map<K, V>) {
    Distinct(s) && (forall i :: 0 <= i < |s| ==> s[i].0 in m && m[s[i].0] == s[i].1) && forall l :: l in m ==> Has(s, l)
  }

  lemma LookedUp<K, V>(s: Entries<K, V>, m: map<K, V>, l: K)
    requires LooksUp(s, m)
    ensures Lookup(s, l) == (if l in m then Some(m[l]) else None) && (Has(s, l) <==> l in m)
  {}

  /** What is left of m once there is room for the key k: all, or all but the last key. */
  ghost function RoomFor<K, V>(s: Entries<K, V>, m: map<K, V>, capacity: nat, k: K): map<K, V> {
    if k in m || |s| < capacity || s == [] then m else m - {s[|s| - 1].0}
  }

  lemma PutLookedUp<K, V>(s: Entries<K, V>, m: map<K, V>, capacity: nat, k: K, v: V, l: K)
    requires LooksUp(s, m) && !PutFails(s, capacity, k)
    ensures var n := RoomFor(s, m, capacity, k)[k := v];
            Distinct(Put(s, capacity, k, v)) &&
            Lookup(Put(s, capacity, k, v), l) == if l in n then Some(n[l]) else None
  {
    LookupAfterPut(s, capacity, k, v, l);
    LookedUp(s, m, l);
    LookedUp(s, m, k);
  }

  /** A put stores the value, and makes room by forgetting the last key; no other key is touched. */
  lemma PutStores<K, V>(s: Entries<K, V>, m: map<K, V>, capacity: nat, k: K, v: V)
    requires LooksUp(s, m) && !PutFails(s, capacity, k)
    ensures LooksUp(Put(s, capacity, k, v), RoomFor(s, m, capacity, k)[k := v])
  {
    var t, n := Put(s, capacity, k, v), RoomFor(s, m, capacity, k)[k := v];
    PutLookedUp(s, m, capacity, k, v, k);
    forall i | 0 <= i < |t| ensures t[i].0 in n && n[t[i].0] == t[i].1 {
      LookupAt(t, i);
      PutLookedUp(s, m, capacity, k, v, t[i].0);
    }
    forall l | l in n ensures Has(t, l) {
      PutLookedUp(s, m, capacity, k, v, l);
    }
  }

  lemma GetKeeps<K, V>(s: Entries<K, V>, m: map<K, V>, k: K)
    requires LooksUp(s, m)
    ensures LooksUp(Get(s, k), m)
  {
    var t := Get(s, k);
    LookupAfterGet(s, k, k);
    forall i | 0 <= i < |t| ensures t[i].0 in m && m[t[i].0] == t[i].1 {
      LookupAt(t, i);
      LookupAfterGet(s, k, t[i].0);
      LookedUp(s, m, t[i].0);
    }
    forall l | l in m ensures Has(t, l) {
      LookupAfterGet(s, k, l);
      LookedUp(s, m, l);
    }
  }

  lemma RemoveForgets<K, V>(s: Entries<K, V>, m: map<K, V>, k: K)
    requires LooksUp(s, m)
    ensures LooksUp(Remove(s, k), m - {k})
  {
    var t, n := Remove(s, k), m - {k};
    LookupAfterRemove(s, k, k);
    forall i | 0 <= i < |t| ensures t[i].0 in n && n[t[i].0] == t[i].1 {
      LookupAt(t, i);
      LookupAfterRemove(s, k, t[i].0);
      LookedUp(s, m, t[i].0);
    }
    forall l | l in n ensures Has(t, l) {
      LookupAfterRemove(s, k, l);
      LookedUp(s, m, l);
    }
  }

  /** Two maps that the list agrees with are the same. */
  lemma SameMap<K, V>(s: Entries<K, V>, m: map<K, V>, n: map<K, V>)
    requires LooksUp(s, m) && LooksUp(s, n)
    ensures m == n
  {
    forall l | l in m ensures l in n && m[l] == n[l] {
      assert s[IndexOf(s, l)].0 == l;
    }
    forall l | l in n ensures l in m {
      assert s[IndexOf(s, l)].0 == l;
    }
  }

  /** What the operations do to the order: a key that is used comes first, and the others stay as they were. */
  lemma UsedComesFirst<K, V>(s: Entries<K, V>, capacity: nat, i: nat, v: V)
    requires Distinct(s) && i < |s|
    ensures var k := s[i].0;
            Get(s, k) == [s[i]] + s[..i] + s[i + 1..] && Put(s, capacity, k, v) == [(k, v)] + s[..i] + s[i + 1..] &&
            Remove(s, k) == s[..i] + s[i + 1..]
  {
    LookupAt(s, i);
    assert [s[i]] + (s[..i] + s[i + 1..]) == [s[i]] + s[..i] + s[i + 1..];
  }

  lemma NewComesFirst<K, V>(s: Entries<K, V>, capacity: nat, k: K, v: V)
    requires !Has(s, k) && |s| <= capacity
    ensures Get(s, k) == s && Remove(s, k) == s
    ensures capacity > 0 ==> Put(s, capacity, k, v) == [(k, v)] + if |s| < capacity then s else s[..|s| - 1]
  {}

  // ---------- Recency ----------

  /** The position of the last use of k in a history of used keys, or -1. */
  ghost function LastUse<K>(history: seq<K>, k: K): int {
    if history == [] then -1
    else if history[|history| - 1] == k then |history| - 1
    else LastUse(history[..|history| - 1], k)
  }

  lemma LastUseBound<K>(history: seq<K>, k: K)
    ensures -1 <= LastUse(history, k) < |history|
  {}

  lemma LastUseSnoc<K>(history: seq<K>, u: K, k: K)
    ensures LastUse(history + [u], k) == if u == k then |history| else LastUse(history, k)
  {}

  /** Earlier entries were used later, and every entry was used. */
  ghost predicate ByRecency<K, V>(s: Entries<K, V>, history: seq<K>) {
    (forall i :: 0 <= i < |s| ==> LastUse(history, s[i].0) >= 0) &&
    (forall i, j :: 0 <= i < j < |s| ==> LastUse(history, s[i].0) > LastUse(history, s[j].0))
  }

  /** Using a key puts its entry first. */
  lemma UseKeepsRecency<K, V>(s: Entries<K, V>, history: seq<K>, k: K, v: V)
    requires ByRecency(s, history) && !Has(s, k)
    ensures ByRecency([(k, v)] + s, history + [k])
  {
    var t := [(k, v)] + s;
    forall i | 0 <= i < |t|
      ensures LastUse(history + [k], t[i].0) == if i == 0 then |history| else LastUse(history, s[i - 1].0)
    {
      LastUseSnoc(history, k, t[i].0);
      if i > 0 {
        assert s[i - 1].0 != k;
      }
    }
    forall i | 0 <= i < |s| {
      LastUseBound(history, s[i].0);
    }
  }

  lemma RemoveKeepsRecency<K, V>(s: Entries<K, V>, history: seq<K>, i: nat)
    requires ByRecency(s, history) && i < |s|
    ensures ByRecency(RemoveAt(s, i), history) && !Has(RemoveAt(s, i), s[i].0)
  {}

  // ---------- Whole runs ----------

  datatype Op<K, V> = PutOp(k: K, v: V) | GetOp(k: K) | RemoveOp(k: K) | ClearOp

  ghost function Apply<K, V>(s: Entries<K, V>, capacity: nat, op: Op<K, V>): Entries<K, V> {
    match op
    case PutOp(k, v) => Put(s, capacity, k, v)
    case GetOp(k) => Get(s, k)
    case RemoveOp(k) => Remove(s, k)
    case ClearOp => []
  }

  datatype Reply<V> = Failed | Done | Found(value: Option<V>)

  /** What an operation answers: a put nothing, unless it fails; a look-up or a removal the value there was. */
  ghost function Answer<K, V>(s: Entries<K, V>, capacity: nat, op: Op<K, V>): Reply<V> {
    match op
    case PutOp(k, _) => if PutFails(s, capacity, k) then Failed else Done
    case GetOp(k) => Found(Lookup(s, k))
    case RemoveOp(k) => Found(Lookup(s, k))
    case ClearOp => Done
  }

  /** The keys that an operation uses: stored ones, and looked up ones that are there. */
  ghost function Uses<K, V>(s: Entries<K, V>, capacity: nat, op: Op<K, V>): seq<K> {
    match op
    case PutOp(k, _) => if PutFails(s, capacity, k) then [] else [k]
    case GetOp(k) => if Has(s, k) then [k] else []
    case RemoveOp(_) => []
    case ClearOp => []
  }

  ghost function Contents<K, V>(capacity: nat, ops: seq<Op<K, V>>): Entries<K, V> {
    if ops == [] then [] else Apply(Contents(capacity, ops[..|ops| - 1]), capacity, ops[|ops| - 1])
  }

  ghost function History<K, V>(capacity: nat, ops: seq<Op<K, V>>): seq<K> {
    if ops == [] then [] else
    var before := ops[..|ops| - 1];
    History(capacity, before) + Uses(Contents(capacity, before), capacity, ops[|ops| - 1])
  }

  /** What a look-up finds after an operation, in terms of what it found before. */
  lemma StepLooksUp<K, V>(s: Entries<K, V>, capacity: nat, op: Op<K, V>, l: K)
    requires Distinct(s)
    ensures Distinct(Apply(s, capacity, op))
    ensures var after := Lookup(Apply(s, capacity, op), l);
            match op
            case PutOp(k, v) =>
              if capacity == 0 && Lookup(s, k) == None then after == Lookup(s, l)
              else if l == k then after == Some(v)
              else if Lookup(s, k) == None && |s| >= capacity && s != [] && l == s[|s| - 1].0 then after == None
              else after == Lookup(s, l)
            case GetOp(_) => after == Lookup(s, l)
            case RemoveOp(k) => after == if l == k then None else Lookup(s, l)
            case ClearOp => after == None
  {
    match op
    case PutOp(k, v) =>
      if !PutFails(s, capacity, k) {
        LookupAfterPut(s, capacity, k, v, l);
      }
    case GetOp(k) => LookupAfterGet(s, k, l);
    case RemoveOp(k) => LookupAfterRemove(s, k, l);
    case ClearOp =>
  }

  lemma StepKeepsRecency<K, V>(s: Entries<K, V>, history: seq<K>, capacity: nat, op: Op<K, V>)
    requires ByRecency(s, history) && |s| <= capacity
    ensures ByRecency(Apply(s, capacity, op), history + Uses(s, capacity, op)) && |Apply(s, capacity, op)| <= capacity
  {
    assert history + [] == history;
    match op
    case PutOp(k, v) =>
      if Has(s, k) {
        RemoveKeepsRecency(s, history, IndexOf(s, k));
        UseKeepsRecency(RemoveAt(s, IndexOf(s, k)), history, k, v);
      } else if capacity > 0 {
        assert !Has(Trim(s, capacity), k);
        UseKeepsRecency(Trim(s, capacity), history, k, v);
      }
    case GetOp(k) =>
      if Has(s, k) {
        RemoveKeepsRecency(s, history, IndexOf(s, k));
        UseKeepsRecency(RemoveAt(s, IndexOf(s, k)), history, k, s[IndexOf(s, k)].1);
      }
    case RemoveOp(k) =>
      if Has(s, k) {
        RemoveKeepsRecency(s, history, IndexOf(s, k));
      }
    case ClearOp =>
  }

  /** After any run the entries are within capacity, one per key, in order of last use. */
  lemma {:induction false} RunsAreByRecency<K, V>(capacity: nat, ops: seq<Op<K, V>>)
    ensures ByRecency(Contents(capacity, ops), History(capacity, ops))
    ensures |Contents(capacity, ops)| <= capacity && Distinct(Contents(capacity, ops))
  {
    if ops != [] {
      var before := ops[..|ops| - 1];
      RunsAreByRecency(capacity, before);
      StepKeepsRecency(Contents(capacity, before), History(capacity, before), capacity, ops[|ops| - 1]);
    }
  }

  /** Storing a new key in a full cache drops the one entry that was used least recently,
      and nothing else. */
  lemma EvictsLeastRecent<K, V>(s: Entries<K, V>, history: seq<K>, capacity: nat, k: K, v: V)
    requires capacity >= 1 && ByRecency(s, history) && |s| == capacity && !Has(s, k)
    ensures var gone := s[|s| - 1].0;
            !Has(Put(s, capacity, k, v), gone) &&
            (forall l :: Has(s, l) && l != gone ==>
              LastUse(history, gone) < LastUse(history, l) && Has(Put(s, capacity, k, v), l) &&
              Lookup(Put(s, capacity, k, v), l) == Lookup(s, l))
  {
    var n := |s| - 1;
    var gone := s[n].0;
    var t := Put(s, capacity, k, v);
    assert forall i :: 0 < i < |t| ==> t[i] == s[i - 1];
    assert !Has(t, gone) by {
      assert Has(s, gone);
    }
    forall l | Has(s, l) && l != gone
      ensures LastUse(history, gone) < LastUse(history, l) && Has(t, l) && Lookup(t, l) == Lookup(s, l)
    {
      var i := IndexOf(s, l);
      assert i < n;
      assert t[i + 1].0 == l;
      var j := IndexOf(t, l);
      assert j > 0;
      assert s[j - 1].0 == l;
    }
  }
}
