/** The 1-2-3 deterministic skip list as values: levels of keys, each grouping the one below. */
module SkipLists {
  import opened Basics
  import opened OrderedSets

  /** The keys of a level from left to right; node i stands for the group of nodes below from starts[i] on, up to
      starts[i + 1]. */
  datatype Level = Level(keys: seq<int>, starts: seq<nat>)

  /** Between two neighbours on a level lie one to three nodes of the level below, and a node's key is the last of its
      group. */
  ghost predicate Group(v: Level, below: seq<int>, i: nat)
    requires i + 1 < |v.starts| && i < |v.keys|
  {
    v.starts[i] + 2 <= v.starts[i + 1] <= v.starts[i] + 4 && v.starts[i + 1] <= |below| &&
    v.keys[i] == below[v.starts[i + 1] - 1]
  }

  ghost predicate Grouped(v: Level, below: seq<int>) {
    |v.starts| == |v.keys| + 1 && v.starts[0] == 0 && v.starts[|v.keys|] == |below| &&
    forall i :: 0 <= i < |v.keys| ==> Group(v, below, i)
  }

  /** A level is sorted and ends in infinity. */
  ghost predicate Ascending(keys: seq<int>, infinity: int) {
    |keys| > 0 && Sorted(keys) && keys[|keys| - 1] == infinity
  }

  ghost predicate WellFormed(levels: seq<Level>, infinity: int) {
    |levels| > 0 &&
    (forall l :: 0 <= l < |levels| ==> Ascending(levels[l].keys, infinity)) &&
    (forall l :: 0 <= l < |levels| - 1 ==> Grouped(levels[l], levels[l + 1].keys))
  }

  function Bottom(levels: seq<Level>): seq<int>
    requires |levels| > 0
  {
    levels[|levels| - 1].keys
  }

  lemma {:induction false} StartsGrow(v: Level, below: seq<int>, i: nat, k: nat)
    requires Grouped(v, below) && i <= k <= |v.keys|
    ensures v.starts[i] + 2 * (k - i) <= v.starts[k] <= |below|
    decreases k - i
  {
    if i < k {
      assert Group(v, below, i);
      StartsGrow(v, below, i + 1, k);
    } else if k < |v.keys| {
      assert Group(v, below, k);
    }
  }

  /** Every level has at least twice the nodes of the one above: h levels, 2^(h-1) nodes at the bottom. */
  lemma {:induction false} HeightBound(levels: seq<Level>, infinity: int)
    requires WellFormed(levels, infinity)
    ensures |Bottom(levels)| >= Pow2(|levels| - 1)
  {
    if |levels| > 1 {
      var upper := levels[..|levels| - 1];
      assert WellFormed(upper, infinity) by {
        assert forall l :: 0 <= l < |upper| ==> upper[l] == levels[l];
      }
      HeightBound(upper, infinity);
      var v, below := levels[|levels| - 2], levels[|levels| - 1].keys;
      assert Grouped(v, below);
      StartsGrow(v, below, 0, |v.keys|);
    }
  }

  /** And at most four times as many: the height is between the logarithms of the size to base 2 and to base 4. */
  lemma {:induction false} HeightBelow(levels: seq<Level>, infinity: int)
    requires WellFormed(levels, infinity)
    ensures |Bottom(levels)| <= |levels[0].keys| * Pow2(2 * (|levels| - 1))
  {
    if |levels| > 1 {
      var upper := levels[..|levels| - 1];
      assert WellFormed(upper, infinity) by {
        assert forall l :: 0 <= l < |upper| ==> upper[l] == levels[l];
      }
      HeightBelow(upper, infinity);
      var v, below := levels[|levels| - 2], levels[|levels| - 1].keys;
      assert Grouped(v, below);
      StartsStay(v, below, |v.keys|);
      var p := Pow2(2 * (|upper| - 1));
      assert Pow2(2 * (|levels| - 1)) == 2 * Pow2(2 * (|levels| - 1) - 1) == 4 * p;
      FourTimes(|levels[0].keys|, p);
    }
  }

  lemma FourTimes(k: nat, p: nat)
    ensures 4 * (k * p) == k * (4 * p)
  {}

  lemma {:induction false} StartsStay(v: Level, below: seq<int>, i: nat)
    requires Grouped(v, below) && i <= |v.keys|
    ensures v.starts[i] <= 4 * i
  {
    if i > 0 {
      StartsStay(v, below, i - 1);
      assert Group(v, below, i - 1);
    }
  }

  /** Each level's keys are among those of the level below. */
  lemma Subset(v: Level, below: seq<int>)
    requires Grouped(v, below)
    ensures forall k :: k in v.keys ==> k in below
  {
    forall k | k in v.keys
      ensures k in below
    {
      var i :| 0 <= i < |v.keys| && v.keys[i] == k;
      assert Group(v, below, i);
    }
  }

  /** All keys are to be found at the bottom. */
  lemma {:induction false} ListedAtBottom(levels: seq<Level>, infinity: int, l: nat)
    requires WellFormed(levels, infinity) && l < |levels|
    ensures forall k :: k in levels[l].keys ==> k in Bottom(levels)
    decreases |levels| - l
  {
    if l + 1 < |levels| {
      assert Grouped(levels[l], levels[l + 1].keys);
      Subset(levels[l], levels[l + 1].keys);
      ListedAtBottom(levels, infinity, l + 1);
    }
  }

  // ---------- Splitting ----------

  function InsertAt<T>(s: seq<T>, i: nat, x: T): (t: seq<T>)
    requires i <= |s|
    ensures |t| == |s| + 1
  {
    s[..i] + [x] + s[i..]
  }

  function Shifted(starts: seq<nat>, p: nat): (t: seq<nat>)
    requires p < |starts|
    ensures |t| == |starts|
  {
    seq(|starts|, j requires 0 <= j < |starts| => if j <= p then starts[j] else starts[j] + 1)
  }

  /** Node i of level v is split: it keeps the first two of its group and the new key, and what comes after goes to a
      new node. */
  function SplitLevel(v: Level, i: nat, key: int, atBottom: bool): Level
    requires i < |v.keys| && (!atBottom ==> |v.starts| == |v.keys| + 1)
  {
    Level(InsertAt(v.keys, i, key), if atBottom then v.starts else InsertAt(v.starts, i + 1, v.starts[i] + 2))
  }

  lemma InsertedAscending(keys: seq<int>, i: nat, key: int, infinity: int)
    requires Ascending(keys, infinity) && i < |keys| && key < keys[i] && (i > 0 ==> keys[i - 1] < key)
    ensures Ascending(InsertAt(keys, i, key), infinity)
    ensures Elements(InsertAt(keys, i, key)) == Elements(keys) + {key}
  {}

  /** The split node had the four nodes of a full group; now there are two groups of two. */
  lemma SplitGrouped(v: Level, below: seq<int>, i: nat)
    requires Grouped(v, below) && i < |v.keys| && v.starts[i + 1] == v.starts[i] + 4 <= |below|
    ensures Grouped(SplitLevel(v, i, below[v.starts[i] + 1], false), below)
  {
    var u := SplitLevel(v, i, below[v.starts[i] + 1], false);
    assert Group(v, below, i);
    forall j | 0 <= j < |u.keys|
      ensures Group(u, below, j)
    {
      if j < i {
        assert Group(v, below, j);
      } else if j > i + 1 {
        assert Group(v, below, j - 1);
        assert u.starts[j] == v.starts[j - 1] && u.starts[j + 1] == v.starts[j] && u.keys[j] == v.keys[j - 1];
      } else if j == i + 1 {
        assert u.starts[j] == v.starts[i] + 2 && u.starts[j + 1] == v.starts[i + 1] && u.keys[j] == v.keys[i];
      }
    }
  }

  /** The group that the new node joins had room for it. */
  lemma ParentGrouped(v: Level, below: seq<int>, p: nat, i: nat, key: int)
    requires Grouped(v, below) && p < |v.keys| && v.starts[p] <= i < v.starts[p + 1] <= v.starts[p] + 3
    requires i < |below|
    ensures Grouped(v.(starts := Shifted(v.starts, p)), InsertAt(below, i, key))
  {
    var u, b := v.(starts := Shifted(v.starts, p)), InsertAt(below, i, key);
    StartsGrow(v, below, 0, p);
    forall j | 0 <= j < |u.keys|
      ensures Group(u, b, j)
    {
      assert Group(v, below, j);
      if j < p {
        StartsGrow(v, below, j + 1, p);
        assert b[u.starts[j + 1] - 1] == below[v.starts[j + 1] - 1];
      } else {
        StartsGrow(v, below, p + 1, j + 1);
        assert b[u.starts[j + 1] - 1] == below[v.starts[j + 1] - 1];
      }
    }
  }

  // ---------- The search of an insertion ----------

  /** Node i of level l is where the search for x has got to, inside the group of node p of the level above. */
  ghost predicate At(levels: seq<Level>, l: nat, i: nat, p: nat, x: int) {
    l < |levels| && i < |levels[l].keys| && (i > 0 ==> levels[l].keys[i - 1] < x) &&
    (l > 0 ==>
      p < |levels[l - 1].keys| && p + 1 < |levels[l - 1].starts| &&
      levels[l - 1].starts[p] <= i < levels[l - 1].starts[p + 1] && x <= levels[l - 1].keys[p])
  }

  /** The group of node p of the level above has room for one more; so does the topmost level of a single node. */
  ghost predicate Room(levels: seq<Level>, l: nat, p: nat)
    requires l < |levels|
  {
    if l == 0 then |levels[0].keys| == 1
    else p + 1 < |levels[l - 1].starts| && levels[l - 1].starts[p + 1] <= levels[l - 1].starts[p] + 3
  }

  /** Node i is to be split: its group is full, or, at the bottom, x belongs right before it. */
  ghost predicate Full(levels: seq<Level>, l: nat, i: nat, x: int)
    requires l < |levels| && i < |levels[l].keys|
  {
    if l + 1 == |levels| then x < levels[l].keys[i]
    else i + 1 < |levels[l].starts| && levels[l].starts[i + 1] == levels[l].starts[i] + 4
  }

  /** The key that the split node is left with. */
  function MiddleKey(levels: seq<Level>, l: nat, i: nat, x: int): int
    requires l < |levels|
  {
    if l + 1 == |levels| then x
    else if i < |levels[l].starts| && levels[l].starts[i] + 1 < |levels[l + 1].keys|
    then levels[l + 1].keys[levels[l].starts[i] + 1]
    else x
  }

  function SplitNode(levels: seq<Level>, l: nat, i: nat, p: nat, x: int): (us: seq<Level>)
    requires l < |levels| && i < |levels[l].keys| && (l + 1 < |levels| ==> |levels[l].starts| == |levels[l].keys| + 1)
    requires l > 0 ==> p < |levels[l - 1].starts|
    ensures |us| == |levels|
  {
    var vs := levels[l := SplitLevel(levels[l], i, MiddleKey(levels, l, i, x), l + 1 == |levels|)];
    if l == 0 then vs else vs[l - 1 := levels[l - 1].(starts := Shifted(levels[l - 1].starts, p))]
  }

  /** The search may start at the leftmost node of the top. */
  lemma AtTop(levels: seq<Level>, infinity: int, x: int)
    requires WellFormed(levels, infinity)
    ensures At(levels, 0, 0, 0, x)
  {}

  /** A step to the right stays inside the group. */
  lemma MoveRight(levels: seq<Level>, infinity: int, l: nat, i: nat, p: nat, x: int)
    requires WellFormed(levels, infinity) && At(levels, l, i, p, x) && levels[l].keys[i] < x <= infinity
    ensures At(levels, l, i + 1, p, x)
  {
    assert Ascending(levels[l].keys, infinity);
    if l > 0 {
      assert Grouped(levels[l - 1], levels[l].keys);
      assert Group(levels[l - 1], levels[l].keys, p);
    }
  }

  /** A step down leads to the first node of the group. */
  lemma MoveDown(levels: seq<Level>, infinity: int, l: nat, i: nat, p: nat, x: int)
    requires WellFormed(levels, infinity) && At(levels, l, i, p, x) && x <= levels[l].keys[i] && l + 1 < |levels|
    ensures |levels[l].starts| == |levels[l].keys| + 1 && At(levels, l + 1, levels[l].starts[i], i, x)
    ensures !Full(levels, l, i, x) ==> Room(levels, l + 1, i)
  {
    var v, below := levels[l], levels[l + 1].keys;
    assert Grouped(v, below) && Group(v, below, i);
    if i > 0 {
      assert Group(v, below, i - 1);
    }
  }

  lemma Between(levels: seq<Level>, infinity: int, l: nat, i: nat, p: nat, x: int)
    requires WellFormed(levels, infinity) && At(levels, l, i, p, x) && x <= levels[l].keys[i] && Full(levels, l, i, x)
    ensures var m := MiddleKey(levels, l, i, x); m < levels[l].keys[i] && (i > 0 ==> levels[l].keys[i - 1] < m)
    ensures l + 1 < |levels| ==> |levels[l].starts| == |levels[l].keys| + 1
  {
    if l + 1 < |levels| {
      var v, below := levels[l], levels[l + 1].keys;
      assert Grouped(v, below) && Group(v, below, i) && Ascending(below, infinity);
      if i > 0 {
        assert Group(v, below, i - 1);
      }
    }
  }

  /** Which levels a split changes. */
  lemma SplitLevels(levels: seq<Level>, l: nat, i: nat, p: nat, x: int, us: seq<Level>)
    requires l < |levels| && i < |levels[l].keys| && (l + 1 < |levels| ==> |levels[l].starts| == |levels[l].keys| + 1)
    requires l > 0 ==> p < |levels[l - 1].starts|
    requires us == SplitNode(levels, l, i, p, x)
    ensures us[l] == SplitLevel(levels[l], i, MiddleKey(levels, l, i, x), l + 1 == |levels|)
    ensures l > 0 ==> us[l - 1] == levels[l - 1].(starts := Shifted(levels[l - 1].starts, p))
    ensures forall k :: 0 <= k < |us| && k != l && k != l - 1 ==> us[k] == levels[k]
    ensures forall k :: 0 <= k < |us| && k != l ==> us[k].keys == levels[k].keys
  {}

  lemma SplitAscending(levels: seq<Level>, infinity: int, l: nat, i: nat, p: nat, x: int, us: seq<Level>)
    requires WellFormed(levels, infinity) && At(levels, l, i, p, x) && x <= levels[l].keys[i] && Full(levels, l, i, x)
    requires l + 1 < |levels| ==> |levels[l].starts| == |levels[l].keys| + 1
    requires us == SplitNode(levels, l, i, p, x)
    ensures forall k :: 0 <= k < |us| ==> Ascending(us[k].keys, infinity)
    ensures Elements(Bottom(us)) == Elements(Bottom(levels)) + (if l + 1 == |levels| then {x} else {})
  {
    var m := MiddleKey(levels, l, i, x);
    assert m < levels[l].keys[i] && (i > 0 ==> levels[l].keys[i - 1] < m) by {
      Between(levels, infinity, l, i, p, x);
    }
    assert (forall k :: 0 <= k < |us| && k != l ==> us[k].keys == levels[k].keys) &&
           us[l].keys == InsertAt(levels[l].keys, i, m) by {
      SplitLevels(levels, l, i, p, x, us);
    }
    assert Ascending(levels[l].keys, infinity);
    InsertedAscending(levels[l].keys, i, m, infinity);
    forall k | 0 <= k < |us|
      ensures Ascending(us[k].keys, infinity)
    {
      assert Ascending(levels[k].keys, infinity);
    }
  }

  /** What holds when node i of level l, in the group of p above, is split and gives us. */
  ghost predicate Splitting(levels: seq<Level>, infinity: int, l: nat, i: nat, p: nat, x: int, us: seq<Level>) {
    WellFormed(levels, infinity) && At(levels, l, i, p, x) && Full(levels, l, i, x) && Room(levels, l, p) &&
    (l + 1 < |levels| ==> |levels[l].starts| == |levels[l].keys| + 1) && us == SplitNode(levels, l, i, p, x)
  }

  /** The level that is split, over the one below it. */
  lemma SplitGroupedHere(levels: seq<Level>, infinity: int, l: nat, i: nat, p: nat, x: int, us: seq<Level>, k: nat)
    requires Splitting(levels, infinity, l, i, p, x, us) && k == l && k + 1 < |levels|
    ensures Grouped(us[k], us[k + 1].keys)
  {
    var v, below := levels[l], levels[l + 1].keys;
    assert Grouped(v, below) && Group(v, below, i);
    SplitLevels(levels, l, i, p, x, us);
    SplitGrouped(v, below, i);
    assert us[l] == SplitLevel(v, i, below[v.starts[i] + 1], false) && us[l + 1].keys == below;
  }

  /** The level above the one that is split. */
  lemma SplitGroupedAbove(levels: seq<Level>, infinity: int, l: nat, i: nat, p: nat, x: int, us: seq<Level>, k: nat)
    requires Splitting(levels, infinity, l, i, p, x, us) && k + 1 == l
    ensures Grouped(us[k], us[k + 1].keys)
  {
    var v, below := levels[k], levels[l].keys;
    assert Grouped(v, below);
    SplitLevels(levels, l, i, p, x, us);
    ParentGrouped(v, below, p, i, MiddleKey(levels, l, i, x));
    assert us[k] == v.(starts := Shifted(v.starts, p));
    assert us[l].keys == InsertAt(below, i, MiddleKey(levels, l, i, x));
  }

  lemma SplitGroupedElsewhere(levels: seq<Level>, infinity: int, l: nat, i: nat, p: nat, x: int, us: seq<Level>, k: nat)
    requires Splitting(levels, infinity, l, i, p, x, us) && k + 1 < |levels| && k != l && k + 1 != l
    ensures Grouped(us[k], us[k + 1].keys)
  {
    SplitLevels(levels, l, i, p, x, us);
    assert Grouped(levels[k], levels[k + 1].keys) && us[k] == levels[k] && us[k + 1].keys == levels[k + 1].keys;
  }

  lemma SplitGroupedAt(levels: seq<Level>, infinity: int, l: nat, i: nat, p: nat, x: int, us: seq<Level>, k: nat)
    requires Splitting(levels, infinity, l, i, p, x, us) && k + 1 < |levels|
    ensures Grouped(us[k], us[k + 1].keys)
  {
    if k == l {
      SplitGroupedHere(levels, infinity, l, i, p, x, us, k);
    } else if k + 1 == l {
      SplitGroupedAbove(levels, infinity, l, i, p, x, us, k);
    } else {
      SplitGroupedElsewhere(levels, infinity, l, i, p, x, us, k);
    }
  }

  /** Splitting keeps all levels in order; at the bottom it adds x, and elsewhere it leaves the bottom as it is. */
  lemma SplitWellFormed(levels: seq<Level>, infinity: int, l: nat, i: nat, p: nat, x: int)
    requires WellFormed(levels, infinity) && At(levels, l, i, p, x) && x <= levels[l].keys[i] &&
             Full(levels, l, i, x) && Room(levels, l, p)
    ensures l + 1 < |levels| ==> |levels[l].starts| == |levels[l].keys| + 1
    ensures var us := SplitNode(levels, l, i, p, x);
            WellFormed(us, infinity) &&
            Elements(Bottom(us)) == Elements(Bottom(levels)) + (if l + 1 == |levels| then {x} else {})
  {
    Between(levels, infinity, l, i, p, x);
    var us := SplitNode(levels, l, i, p, x);
    SplitAscending(levels, infinity, l, i, p, x, us);
    forall k | 0 <= k < |us| - 1
      ensures Grouped(us[k], us[k + 1].keys)
    {
      SplitGroupedAt(levels, infinity, l, i, p, x, us, k);
    }
  }

  /** Where the search goes on after a split: not to a node to be split. */
  lemma SplitAt(levels: seq<Level>, infinity: int, l: nat, i: nat, p: nat, x: int, us: seq<Level>)
    requires WellFormed(levels, infinity) && At(levels, l, i, p, x) && x <= levels[l].keys[i] &&
             Full(levels, l, i, x) && Room(levels, l, p)
    requires l + 1 < |levels| ==> |levels[l].starts| == |levels[l].keys| + 1
    requires us == SplitNode(levels, l, i, p, x)
    ensures At(us, l, i, p, x) && x <= us[l].keys[i + 1] && !Full(us, l, i, x) &&
            (us[l].keys[i] < x ==> !Full(us, l, i + 1, x))
  {}

  /** Once level l has been split, its search ends at a node that is not to be split. */
  ghost predicate Settled(levels: seq<Level>, l: nat, i: nat, x: int)
    requires l < |levels| && i < |levels[l].keys|
  {
    (x <= levels[l].keys[i] ==> !Full(levels, l, i, x)) &&
    (levels[l].keys[i] < x ==> i + 1 < |levels[l].keys| && x <= levels[l].keys[i + 1] && !Full(levels, l, i + 1, x))
  }

  /** What an insertion keeps: the levels stay in order, and the bottom gains nothing but x. */
  ghost predicate Growing(levels: seq<Level>, infinity: int, height: nat, before: set<int>, x: int) {
    WellFormed(levels, infinity) && |levels| == height && |levels[0].keys| <= 2 &&
    before <= Elements(Bottom(levels)) <= before + {x}
  }

  /** Where the search is, and that it can split there if it has to. */
  ghost predicate Poised(levels: seq<Level>, l: nat, i: nat, p: nat, x: int, ready: bool) {
    At(levels, l, i, p, x) && if ready then Room(levels, l, p) else Settled(levels, l, i, x)
  }

  lemma SplitGrows(levels: seq<Level>, infinity: int, height: nat, before: set<int>, l: nat, i: nat, p: nat, x: int)
    requires Growing(levels, infinity, height, before, x) && At(levels, l, i, p, x) && x <= levels[l].keys[i]
    requires Full(levels, l, i, x) && Room(levels, l, p)
    ensures l + 1 < |levels| ==> |levels[l].starts| == |levels[l].keys| + 1
    ensures var us := SplitNode(levels, l, i, p, x);
            Growing(us, infinity, height, before, x) && Poised(us, l, i, p, x, false)
  {
    SplitWellFormed(levels, infinity, l, i, p, x);
    SplitAt(levels, infinity, l, i, p, x, SplitNode(levels, l, i, p, x));
    SplitLevels(levels, l, i, p, x, SplitNode(levels, l, i, p, x));
  }

  /** The search leaves the bottom level only at x itself. */
  lemma FoundAtBottom(levels: seq<Level>, l: nat, i: nat, p: nat, x: int)
    requires At(levels, l, i, p, x) && x <= levels[l].keys[i] && l + 1 == |levels| && !Full(levels, l, i, x)
    ensures x in Bottom(levels)
  {}

  function Raised(levels: seq<Level>, infinity: int): seq<Level> {
    [Level([infinity], [0, 2])] + levels
  }

  /** A new top over a level of two nodes. */
  lemma RaisedWellFormed(levels: seq<Level>, infinity: int)
    requires WellFormed(levels, infinity) && |levels[0].keys| == 2
    ensures WellFormed(Raised(levels, infinity), infinity) && Bottom(Raised(levels, infinity)) == Bottom(levels)
  {}
}
