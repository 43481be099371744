/** Binomial queues as values: a tree for every one bit, and merging as addition with carry. */
module BinomialQueues {
  import opened Basics
  import opened Forests

  /** The children of a binomial tree of order k: trees of the orders k - 1 down to 0. */
  predicate Children<N>(f: Forest<N>, k: nat) {
    if k == 0 then f.Nil? else f.Cons? && Children(f.child, k - 1) && Children(f.next, k - 1)
  }

  /** A place for a heap-ordered binomial tree of order k, perhaps empty. */
  predicate Slot<N>(t: Forest<N>, k: nat) {
    t.Cons? ==> Tree(t) && Children(t.child, k) && Ordered(t)
  }

  function Bit<N>(t: Forest<N>): nat {
    if t.Nil? then 0 else 1
  }

  /** A binomial tree of order k has 2^k keys. */
  lemma {:induction false} ChildrenSize<N>(f: Forest<N>, k: nat)
    requires Children(f, k)
    ensures |Keys(f)| + 1 == Pow2(k)
  {
    if k > 0 {
      ChildrenSize(f.child, k - 1);
      ChildrenSize(f.next, k - 1);
    }
  }

  lemma SumAssociates(a: multiset<int>, b: multiset<int>, c: multiset<int>)
    ensures a + b + c == a + (b + c)
  {}

  lemma SumExchanges(a: multiset<int>, u: multiset<int>, x: multiset<int>, v: multiset<int>, y: multiset<int>)
    requires u + x == v + y
    ensures a + u + x == a + v + y
  {
    SumAssociates(a, u, x);
    SumAssociates(a, v, y);
  }

  // ---------- Combining and adding ----------

  function CombineTrees<N>(t: Forest<N>, u: Forest<N>): (c: Forest<N>)
    requires t.Cons? && u.Cons?
    ensures c.Cons?
  {
    if t.key > u.key then u.(child := t.(next := u.child)) else t.(child := u.(next := t.child))
  }

  lemma CombineKeeps<N>(t: Forest<N>, u: Forest<N>, k: nat)
    requires t.Cons? && u.Cons? && Slot(t, k) && Slot(u, k)
    ensures Slot(CombineTrees(t, u), k + 1) && Keys(CombineTrees(t, u)) == Keys(t) + Keys(u)
    ensures Nodes(CombineTrees(t, u)) == Nodes(t) + Nodes(u)
  {}

  /** What stays in a place, and what is carried on to the next. */
  datatype Sum<N> = Sum(slot: Forest<N>, carry: Forest<N>)

  /** One column of the addition. */
  function Add<N>(t: Forest<N>, u: Forest<N>, carry: Forest<N>): Sum<N> {
    if t.Nil? then
      if u.Nil? then Sum(carry, Nil)
      else if carry.Nil? then Sum(u, Nil) else Sum(Nil, CombineTrees(u, carry))
    else if u.Nil? then
      if carry.Nil? then Sum(t, Nil) else Sum(Nil, CombineTrees(t, carry))
    else Sum(carry, CombineTrees(t, u))
  }

  lemma AddKeeps<N>(t: Forest<N>, u: Forest<N>, carry: Forest<N>, k: nat)
    requires Slot(t, k) && Slot(u, k) && Slot(carry, k)
    ensures var s := Add(t, u, carry);
            Slot(s.slot, k) && Slot(s.carry, k + 1) && Bit(s.slot) + 2 * Bit(s.carry) == Bit(t) + Bit(u) + Bit(carry)
  {
    if t.Cons? && u.Cons? {
      CombineKeeps(t, u, k);
    } else if t.Cons? && carry.Cons? {
      CombineKeeps(t, carry, k);
    } else if u.Cons? && carry.Cons? {
      CombineKeeps(u, carry, k);
    }
  }

  lemma AddNodes<N>(t: Forest<N>, u: Forest<N>, carry: Forest<N>, k: nat)
    requires Slot(t, k) && Slot(u, k) && Slot(carry, k)
    requires Nodes(t) !! Nodes(u) && Nodes(t) !! Nodes(carry) && Nodes(u) !! Nodes(carry)
    ensures var s := Add(t, u, carry);
            Nodes(s.slot) <= Nodes(t) + Nodes(u) + Nodes(carry) &&
            Nodes(s.carry) <= Nodes(t) + Nodes(u) + Nodes(carry) &&
            Nodes(s.slot) !! Nodes(s.carry)
  {}

  lemma CombineKeys<N>(t: Forest<N>, u: Forest<N>)
    requires Tree(t) && Tree(u)
    ensures Keys(CombineTrees(t, u)) == Keys(t) + Keys(u)
  {}

  lemma TreesAddKeys<N>(t: Forest<N>, u: Forest<N>, carry: Forest<N>)
    requires (t.Cons? ==> Tree(t)) && (u.Cons? ==> Tree(u)) && (carry.Cons? ==> Tree(carry))
    ensures var s := Add(t, u, carry); Keys(s.slot) + Keys(s.carry) == Keys(t) + Keys(u) + Keys(carry)
  {
    if t.Cons? && u.Cons? {
      CombineKeys(t, u);
    } else if t.Cons? && carry.Cons? {
      CombineKeys(t, carry);
    } else if u.Cons? && carry.Cons? {
      CombineKeys(u, carry);
    }
  }

  lemma AddKeys<N>(t: Forest<N>, u: Forest<N>, carry: Forest<N>, k: nat)
    requires Slot(t, k) && Slot(u, k) && Slot(carry, k)
    ensures var s := Add(t, u, carry); Keys(s.slot) + Keys(s.carry) == Keys(t) + Keys(u) + Keys(carry)
  {
    TreesAddKeys(t, u, carry);
  }

  // ---------- Whole queues ----------

  ghost predicate Slots<N>(ts: seq<Forest<N>>) {
    forall k :: 0 <= k < |ts| ==> Slot(ts[k], k)
  }

  /** The number whose bits say which places are taken. */
  function Value<N>(ts: seq<Forest<N>>): nat {
    if ts == [] then 0 else Bit(ts[0]) + 2 * Value(ts[1..])
  }

  ghost function AllKeys<N>(ts: seq<Forest<N>>): multiset<int> {
    if ts == [] then multiset{} else Keys(ts[0]) + AllKeys(ts[1..])
  }

  lemma {:induction false} KeysUpdate<N>(ts: seq<Forest<N>>, i: nat, t: Forest<N>)
    requires i < |ts|
    ensures AllKeys(ts[i := t]) + Keys(ts[i]) == AllKeys(ts) + Keys(t)
  {
    if i > 0 {
      KeysUpdate(ts[1..], i - 1, t);
      assert ts[i := t][1..] == ts[1..][i - 1 := t];
      SumExchanges(Keys(ts[0]), AllKeys(ts[1..][i - 1 := t]), Keys(ts[i]), AllKeys(ts[1..]), Keys(t));
    } else {
      assert ts[i := t][1..] == ts[1..];
    }
  }

  lemma {:induction false} KeysConcat<N>(a: seq<Forest<N>>, b: seq<Forest<N>>)
    ensures AllKeys(a + b) == AllKeys(a) + AllKeys(b)
  {
    if a == [] {
      assert a + b == b;
    } else {
      var x, y, z := Keys(a[0]), AllKeys(a[1..]), AllKeys(b);
      KeysConcat(a[1..], b);
      assert AllKeys(a + b) == x + (y + z) by {
        assert (a + b)[0] == a[0] && (a + b)[1..] == a[1..] + b;
      }
      SumAssociates(x, y, z);
    }
  }

  lemma {:induction false} ValueSnoc<N>(ts: seq<Forest<N>>, t: Forest<N>)
    ensures Value(ts + [t]) == Value(ts) + Pow2(|ts|) * Bit(t)
  {
    if ts == [] {
      assert ts + [t] == [t];
    } else {
      ValueSnoc(ts[1..], t);
      assert (ts + [t])[1..] == ts[1..] + [t];
    }
  }

  /** An empty queue is one whose number is 0. */
  lemma {:induction false} ValueZero<N>(ts: seq<Forest<N>>)
    requires Value(ts) == 0
    ensures forall k :: 0 <= k < |ts| ==> ts[k].Nil?
    ensures AllKeys(ts) == multiset{}
  {
    if ts != [] {
      ValueZero(ts[1..]);
      assert forall k :: 1 <= k < |ts| ==> ts[k] == ts[1..][k - 1];
    }
  }

  lemma {:induction false} ValueBelow<N>(ts: seq<Forest<N>>)
    ensures Value(ts) < Pow2(|ts|)
  {
    if ts != [] {
      ValueBelow(ts[1..]);
    }
  }

  lemma OneKeys<N>(t: Forest<N>, k: nat)
    requires Slot(t, k)
    ensures |AllKeys([t])| == Pow2(k) * Bit(t)
  {
    assert AllKeys([t]) == Keys(t);
    if t.Cons? {
      ChildrenSize(t.child, k);
      assert Keys(t) == multiset{t.key} + Keys(t.child);
    }
  }

  /** The number of keys is the number that the places spell in binary. */
  lemma {:induction false} SizeIsValue<N>(ts: seq<Forest<N>>)
    requires Slots(ts)
    ensures |AllKeys(ts)| == Value(ts)
  {
    if ts != [] {
      var n := |ts| - 1;
      var a, t := ts[..n], ts[n];
      assert Slots(a) && Slot(t, n);
      SizeIsValue(a);
      ValueSnoc(a, t);
      assert ts == a + [t];
      KeysConcat(a, [t]);
      OneKeys(t, n);
    }
  }

  // ---------- Merging ----------

  /** The state of a merge before column i: the places of this queue, those of the other, and the carry.
      Below i the sum is done; the number that all of it spells stays the same, and so do the keys. */
  ghost predicate Merging<N>(ts: seq<Forest<N>>, m: nat, i: nat, total: nat) {
    |ts| == 2 * m + 1 && i <= m &&
    Slots(ts[..m]) && Slots(ts[m..2 * m]) && Slot(ts[2 * m], i) &&
    (forall k :: m <= k < m + i ==> ts[k].Nil?) &&
    Value(ts[..i]) + Pow2(i) * (Bit(ts[2 * m]) + Value(ts[i..m]) + Value(ts[m + i..2 * m])) == total
  }

  function Column<N>(ts: seq<Forest<N>>, m: nat, i: nat): (us: seq<Forest<N>>)
    requires |ts| == 2 * m + 1 && i < m
    ensures |us| == |ts|
  {
    var s := Add(ts[i], ts[m + i], ts[2 * m]);
    ts[i := s.slot][m + i := Nil][2 * m := s.carry]
  }

  lemma MergeStart<N>(a: seq<Forest<N>>, b: seq<Forest<N>>, i: nat)
    requires Slots(a) && Slots(b) && |a| == |b| && i == 0
    ensures Merging(a + b + [Nil], |a|, i, Value(a) + Value(b))
  {
    var ts, m := a + b + [Nil], |a|;
    assert ts[..m] == a && ts[m..2 * m] == b && ts[i..m] == a && ts[m + i..2 * m] == b && ts[..i] == [];
    assert Pow2(i) == 1;
  }

  lemma MergeStartKeys<N>(a: seq<Forest<N>>, b: seq<Forest<N>>)
    ensures AllKeys(a + b + [Nil]) == AllKeys(a) + AllKeys(b)
  {
    KeysConcat(a + b, [Nil]);
    KeysConcat(a, b);
    var none: Forest<N> := Nil;
    NoKeys([none]);
  }

  lemma ColumnSum(low: int, p: int, c: int, a: int, b: int, s: int, d: int, a0: int, b0: int, total: int)
    requires low + p * (c + (a0 + 2 * a) + (b0 + 2 * b)) == total && s + 2 * d == a0 + b0 + c
    ensures (low + p * s) + (2 * p) * (d + a + b) == total
  {}

  lemma MergeColumn<N>(ts: seq<Forest<N>>, m: nat, i: nat, total: nat)
    requires Merging(ts, m, i, total) && i < m
    ensures Merging(Column(ts, m, i), m, i + 1, total)
  {
    var s := Add(ts[i], ts[m + i], ts[2 * m]);
    assert Slot(ts[..m][i], i) && Slot(ts[m..2 * m][i], i);
    AddKeeps(ts[i], ts[m + i], ts[2 * m], i);
    var us := Column(ts, m, i);
    assert us[..m] == ts[..m][i := s.slot];
    assert us[m..2 * m] == ts[m..2 * m][i := Nil];
    assert us[i + 1..m] == ts[i + 1..m] == ts[i..m][1..];
    assert us[m + i + 1..2 * m] == ts[m + i + 1..2 * m] == ts[m + i..2 * m][1..];
    assert us[..i + 1] == ts[..i] + [s.slot];
    ValueSnoc(ts[..i], s.slot);
    ColumnSum(Value(ts[..i]), Pow2(i), Bit(ts[2 * m]), Value(us[i + 1..m]), Value(us[m + i + 1..2 * m]),
              Bit(s.slot), Bit(s.carry), Bit(ts[i]), Bit(ts[m + i]), total);
  }

  lemma ColumnKeys<N>(ts: seq<Forest<N>>, m: nat, i: nat, total: nat)
    requires Merging(ts, m, i, total) && i < m
    ensures AllKeys(Column(ts, m, i)) == AllKeys(ts)
  {
    var t, u, c := ts[i], ts[m + i], ts[2 * m];
    var s := Add(t, u, c);
    assert Slot(ts[..m][i], i) && Slot(ts[m..2 * m][i], i);
    AddKeys(t, u, c, i);
    var t1 := ts[i := s.slot];
    var t2 := t1[m + i := Nil];
    KeysUpdate(ts, i, s.slot);
    KeysUpdate(t1, m + i, Nil);
    KeysUpdate(t2, 2 * m, s.carry);
    SumCancels(AllKeys(ts), AllKeys(t1), AllKeys(t2), AllKeys(Column(ts, m, i)), Keys(t), Keys(u), Keys(c),
      Keys(s.slot), Keys(s.carry));
  }

  lemma SumCancels(k: multiset<int>, k1: multiset<int>, k2: multiset<int>, k3: multiset<int>,
                   t: multiset<int>, u: multiset<int>, c: multiset<int>, s: multiset<int>, d: multiset<int>)
    requires k1 + t == k + s && k2 + u == k1 + multiset{} && k3 + c == k2 + d && s + d == t + u + c
    ensures k3 == k
  {
    forall x
      ensures k3[x] == k[x]
    {
      assert (k1 + t)[x] == (k + s)[x];
      assert (k2 + u)[x] == k1[x];
      assert (k3 + c)[x] == (k2 + d)[x];
      assert (s + d)[x] == (t + u + c)[x];
    }
  }

  lemma ColumnApart<N>(ts: seq<Forest<N>>, m: nat, i: nat, total: nat, ns: set<N>)
    requires Merging(ts, m, i, total) && i < m && Apart(ts) && Within(ts, ns)
    ensures Slot(ts[i], i) && Slot(ts[m + i], i) && Slot(ts[2 * m], i)
    ensures Apart(Column(ts, m, i)) && Within(Column(ts, m, i), ns)
  {
    assert Slot(ts[..m][i], i) && Slot(ts[m..2 * m][i], i);
    AddNodes(ts[i], ts[m + i], ts[2 * m], i);
  }

  /** All that a merge keeps from column to column. */
  ghost predicate UpTo<N>(ts: seq<Forest<N>>, m: nat, i: nat, total: nat, keys: multiset<int>, ns: set<N>) {
    Merging(ts, m, i, total) && AllKeys(ts) == keys && Apart(ts) && Within(ts, ns)
  }

  lemma NextColumn<N>(ts: seq<Forest<N>>, m: nat, i: nat, total: nat, keys: multiset<int>, ns: set<N>)
    requires UpTo(ts, m, i, total, keys, ns) && i < m
    ensures UpTo(Column(ts, m, i), m, i + 1, total, keys, ns)
  {
    MergeColumn(ts, m, i, total);
    ColumnKeys(ts, m, i, total);
    ColumnApart(ts, m, i, total, ns);
  }

  lemma FirstColumn<N>(a: seq<Forest<N>>, b: seq<Forest<N>>, i: nat, ns: set<N>)
    requires Slots(a) && Slots(b) && |a| == |b| && i == 0
    requires Apart(a + b + [Nil]) && Within(a + b + [Nil], ns)
    ensures UpTo(a + b + [Nil], |a|, i, Value(a) + Value(b), AllKeys(a) + AllKeys(b), ns)
  {
    MergeStart(a, b, i);
    MergeStartKeys(a, b);
  }

  /** Once no column is left to which anything could be carried, the high places of both queues and the carry are
      empty. */
  lemma HighEmpty<N>(ts: seq<Forest<N>>, m: nat, i: nat, total: nat)
    requires Merging(ts, m, i, total) && total < Pow2(i)
    ensures ts[2 * m].Nil? && Value(ts[i..m]) == 0 && Value(ts[..i]) == total
    ensures forall k :: m <= k <= 2 * m ==> ts[k].Nil?
  {
    HighZero(ts, m, i, total);
    var rest := ts[m + i..2 * m];
    ValueZero(rest);
    forall k | m + i <= k < 2 * m
      ensures ts[k].Nil?
    {
      assert ts[k] == rest[k - m - i];
    }
  }

  lemma HighZero<N>(ts: seq<Forest<N>>, m: nat, i: nat, total: nat)
    requires Merging(ts, m, i, total) && total < Pow2(i)
    ensures Bit(ts[2 * m]) == Value(ts[i..m]) == Value(ts[m + i..2 * m]) == 0 && Value(ts[..i]) == total
  {
    NoneLeft(Value(ts[..i]), Pow2(i), Bit(ts[2 * m]) + Value(ts[i..m]) + Value(ts[m + i..2 * m]), total);
  }

  /** The sum is then complete. */
  lemma MergeEnd<N>(ts: seq<Forest<N>>, m: nat, i: nat, total: nat)
    requires Merging(ts, m, i, total) && total < Pow2(i)
    ensures Slots(ts[..m]) && Value(ts[..m]) == total && AllKeys(ts[..m]) == AllKeys(ts)
    ensures forall k :: m <= k <= 2 * m ==> ts[k].Nil?
  {
    HighEmpty(ts, m, i, total);
    AllInFront(ts, m);
    ValueZero(ts[i..m]);
    HighZeros(ts[..i], ts[i..m]);
    assert ts[..m] == ts[..i] + ts[i..m];
  }

  lemma AllInFront<N>(ts: seq<Forest<N>>, m: nat)
    requires |ts| == 2 * m + 1 && forall k :: m <= k <= 2 * m ==> ts[k].Nil?
    ensures AllKeys(ts[..m]) == AllKeys(ts)
  {
    assert ts == ts[..m] + ts[m..];
    KeysConcat(ts[..m], ts[m..]);
    NoKeys(ts[m..]);
  }

  lemma NoneLeft(low: int, p: int, high: nat, total: int)
    requires low + p * high == total && low >= 0 && 0 <= total < p
    ensures high == 0
  {}

  lemma {:induction false} NoKeys<N>(ts: seq<Forest<N>>)
    requires forall k :: 0 <= k < |ts| ==> ts[k].Nil?
    ensures AllKeys(ts) == multiset{}
  {
    if ts != [] {
      NoKeys(ts[1..]);
    }
  }

  lemma {:induction false} HighZeros<N>(a: seq<Forest<N>>, b: seq<Forest<N>>)
    requires forall k :: 0 <= k < |b| ==> b[k].Nil?
    ensures Value(a + b) == Value(a)
  {
    if b != [] {
      var n := |b| - 1;
      HighZeros(a, b[..n]);
      ValueSnoc(a + b[..n], b[n]);
      assert a + b == a + b[..n] + [b[n]];
    } else {
      assert a + b == a;
    }
  }

  // ---------- Taking a tree apart ----------

  /** The children of a tree of order k, each in the place for its order. */
  function Unlinked<N>(f: Forest<N>, k: nat): (ts: seq<Forest<N>>)
    requires Children(f, k)
    ensures |ts| == k
  {
    if k == 0 then [] else Unlinked(f.next, k - 1) + [f.(next := Nil)]
  }

  lemma {:induction false} UnlinkedKeys<N>(f: Forest<N>, k: nat)
    requires Children(f, k)
    ensures AllKeys(Unlinked(f, k)) == Keys(f)
  {
    if k > 0 {
      var a, t := Unlinked(f.next, k - 1), f.(next := Nil);
      UnlinkedKeys(f.next, k - 1);
      KeysConcat(a, [t]);
      assert Keys(t) == multiset{f.key} + Keys(f.child);
    }
  }

  lemma {:induction false} UnlinkedSlots<N>(f: Forest<N>, k: nat)
    requires Children(f, k) && Ordered(f)
    ensures Slots(Unlinked(f, k)) && Value(Unlinked(f, k)) == Pow2(k) - 1
  {
    if k > 0 {
      UnlinkedSlots(f.next, k - 1);
      ValueSnoc(Unlinked(f.next, k - 1), f.(next := Nil));
    }
  }

  function Zeros<N>(m: nat): (ts: seq<Forest<N>>)
    ensures |ts| == m && forall k :: 0 <= k < m ==> ts[k].Nil?
  {
    seq(m, i => Nil)
  }

  lemma ZerosEmpty<N>(ts: seq<Forest<N>>)
    requires forall k :: 0 <= k < |ts| ==> ts[k].Nil?
    ensures Slots(ts) && AllKeys(ts) == multiset{} && Value(ts) == 0
  {}

  // ---------- One place ----------

  lemma {:induction false} ValueUpdate<N>(ts: seq<Forest<N>>, i: nat, t: Forest<N>)
    requires i < |ts|
    ensures Value(ts[i := t]) + Pow2(i) * Bit(ts[i]) == Value(ts) + Pow2(i) * Bit(t)
  {
    if i > 0 {
      ValueUpdate(ts[1..], i - 1, t);
      assert ts[i := t][1..] == ts[1..][i - 1 := t];
    } else {
      assert ts[i := t][1..] == ts[1..];
    }
  }

  lemma {:induction false} KeyListed<N>(ts: seq<Forest<N>>, i: nat, e: int)
    requires i < |ts| && e in Keys(ts[i])
    ensures e in AllKeys(ts)
  {
    if i > 0 {
      KeyListed(ts[1..], i - 1, e);
    }
  }

  /** No key is below the least of the roots. */
  lemma {:induction false} NoneBelow<N>(ts: seq<Forest<N>>, low: int)
    requires forall k :: 0 <= k < |ts| && ts[k].Cons? ==> Tree(ts[k]) && Ordered(ts[k]) && low <= ts[k].key
    ensures forall e :: e in AllKeys(ts) ==> low <= e
  {
    if ts != [] {
      NoneBelow(ts[1..], low);
      if ts[0].Cons? {
        KeysAtLeast(low, ts[0]);
      }
    }
  }

  ghost predicate IsMin(low: int, keys: multiset<int>) {
    low in keys && forall e :: e in keys ==> low <= e
  }

  lemma LeastRoot<N>(ts: seq<Forest<N>>, i: nat)
    requires Slots(ts) && i < |ts| && ts[i].Cons?
    requires forall k :: 0 <= k < |ts| && ts[k].Cons? ==> ts[i].key <= ts[k].key
    ensures IsMin(ts[i].key, AllKeys(ts))
  {
    assert forall k :: 0 <= k < |ts| ==> Slot(ts[k], k);
    KeyListed(ts, i, ts[i].key);
    NoneBelow(ts, ts[i].key);
  }

  lemma SpreadOut<N>(f: Forest<N>, k: nat, m: nat, us: seq<Forest<N>>)
    requires k <= m && Children(f, k) && Ordered(f) && us == Unlinked(f, k) + Zeros(m - k)
    ensures Slots(us) && Value(us) == Pow2(k) - 1 && AllKeys(us) == Keys(f)
  {
    var a, z: seq<Forest<N>> := Unlinked(f, k), Zeros(m - k);
    UnlinkedKeys(f, k);
    UnlinkedSlots(f, k);
    HighZeros(a, z);
    KeysConcat(a, z);
    ZerosEmpty(z);
  }

  /** The queue without the tree in place i. */
  lemma TakenOut<N>(ts: seq<Forest<N>>, i: nat)
    requires Slots(ts) && i < |ts| && ts[i].Cons?
    ensures Slots(ts[i := Nil]) && Value(ts[i := Nil]) == Value(ts) - Pow2(i)
    ensures AllKeys(ts[i := Nil]) + Keys(ts[i].child) == AllKeys(ts) - multiset{ts[i].key}
  {
    var t := ts[i];
    assert Slot(t, i);
    ValueUpdate(ts, i, Nil);
    KeysUpdate(ts, i, Nil);
    assert Keys(t) == multiset{t.key} + Keys(t.child);
    KeyTaken(AllKeys(ts[i := Nil]), t.key, Keys(t.child), AllKeys(ts));
  }

  lemma KeyTaken(rest: multiset<int>, key: int, below: multiset<int>, all: multiset<int>)
    requires rest + (multiset{key} + below) == all
    ensures rest + below == all - multiset{key}
  {}

  /** A lone node in place 0 of an empty queue. */
  lemma SingleSlot<N>(ts: seq<Forest<N>>, i: nat, n: N, x: int)
    requires Slots(ts) && i == 0 < |ts| && Value(ts) == 0
    ensures var us := ts[i := Cons(n, x, Nil, Nil)];
            Slots(us) && Value(us) == 1 && AllKeys(us) == multiset{x} &&
            forall k :: 0 <= k < |ts| && k != i ==> us[k].Nil?
  {
    var t: Forest<N> := Cons(n, x, Nil, Nil);
    ValueZero(ts);
    KeysUpdate(ts, i, t);
    ValueUpdate(ts, i, t);
    assert Slot(t, i);
    assert Keys(t) == multiset{x};
  }
}
