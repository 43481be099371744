/** Quicksort and quickselect in place, with median-of-three partitioning and a cutoff. */
module Sort {

  const CUTOFF := 3

  /** s[from..to] is in order. */
  ghost predicate Ordered(s: seq<int>, from: int, to: int) {
    forall i, j :: 0 <= from <= i < j < to <= |s| ==> s[i] <= s[j]
  }

  /** t is s with the elements of s[from..to] rearranged. */
  ghost predicate Rearranged(s: seq<int>, t: seq<int>, from: int, to: int) {
    0 <= from <= to <= |s| == |t| && multiset(s) == multiset(t) && s[..from] == t[..from] && s[to..] == t[to..]
  }

  lemma SliceRearranged(s: seq<int>, t: seq<int>, from: int, to: int)
    requires Rearranged(s, t, from, to)
    ensures multiset(s[from..to]) == multiset(t[from..to])
  {
    assert s == s[..from] + s[from..to] + s[to..];
    assert t == t[..from] + t[from..to] + t[to..];
    Cancel(multiset(s[..from]), multiset(s[from..to]), multiset(t[from..to]), multiset(s[to..]));
  }

  lemma Cancel(a: multiset<int>, b: multiset<int>, c: multiset<int>, d: multiset<int>)
    requires a + b + d == a + c + d
    ensures b == c
  {
    forall x
      ensures b[x] == c[x]
    {
      assert (a + b + d)[x] == (a + c + d)[x];
    }
  }

  lemma RearrangedWider(s: seq<int>, t: seq<int>, from: int, to: int, from': int, to': int)
    requires Rearranged(s, t, from, to) && 0 <= from' <= from && to <= to' <= |s|
    ensures Rearranged(s, t, from', to')
  {}

  lemma SwapRearranges(s: seq<int>, t: seq<int>, u: seq<int>, from: int, to: int, i: int, j: int)
    requires Rearranged(s, t, from, to) && from <= i < to && from <= j < to
    requires u == t[i := t[j]][j := t[i]]
    ensures Rearranged(s, u, from, to)
  {}

  /** Swaps two elements of the stretch in which s is being rearranged. */
  method SwapReferences(a: array<int>, index1: int, index2: int, ghost s: seq<int>, ghost from: int, ghost to: int)
    requires 0 <= from <= index1 < to <= a.Length && from <= index2 < to && Rearranged(s, a[..], from, to)
    modifies a
    ensures Rearranged(s, a[..], from, to)
    ensures a[index1] == old(a[index2]) && a[index2] == old(a[index1])
    ensures forall k :: 0 <= k < a.Length && k != index1 && k != index2 ==> a[k] == old(a[k])
  {
    var tmp := a[index1];
    a[index1] := a[index2];
    a[index2] := tmp;
    SwapRearranges(s, old(a[..]), a[..], from, to, index1, index2);
  }

  /** Orders the left, center and right elements, and hides the median before the last as the pivot. */
  method Median3(a: array<int>, left: int, right: int, ghost s: seq<int>) returns (pivot: int)
    requires 0 <= left && left + CUTOFF <= right < a.Length && Rearranged(s, a[..], left, right + 1)
    modifies a
    ensures Rearranged(s, a[..], left, right + 1)
    ensures a[left] <= pivot <= a[right] && a[right - 1] == pivot
  {
    var center := (left + right) / 2;
    ghost var to := right + 1;
    if a[center] < a[left] {
      SwapReferences(a, left, center, s, left, to);
    }
    if a[right] < a[left] {
      SwapReferences(a, left, right, s, left, to);
    }
    if a[right] < a[center] {
      SwapReferences(a, center, right, s, left, to);
    }
    SwapReferences(a, center, right - 1, s, left, to);
    pivot := a[right - 1];
  }

  /** Everything up to i is at most the pivot, and everything from j on at least. */
  ghost predicate Parted(t: seq<int>, left: int, right: int, i: int, j: int, pivot: int) {
    0 <= left <= i && j <= right < |t| && (forall k :: left <= k <= i < |t| ==> t[k] <= pivot) &&
    (forall k :: 0 <= j <= k <= right ==> pivot <= t[k])
  }

  /** Both scans move on to the next elements out of place; neither needs a test for the end of the stretch. */
  method Scan(a: array<int>, left: int, right: int, i0: int, j0: int, pivot: int) returns (i: int, j: int)
    requires left <= i0 < j0 <= right - 1 && Parted(a[..], left, right, i0, j0, pivot) && a[right - 1] == pivot
    ensures i0 < i <= right - 1 && left <= j < j0 && Parted(a[..], left, right, i - 1, j + 1, pivot)
    ensures a[j] <= pivot <= a[i]
  {
    i, j := i0 + 1, j0;
    while a[i] < pivot
      invariant i0 < i <= right - 1
      invariant forall k :: left <= k < i ==> a[k] <= pivot
      decreases right - i
    {
      i := i + 1;
    }
    j := j - 1;
    while a[j] > pivot
      invariant left <= j < j0
      invariant forall k :: j < k <= right ==> pivot <= a[k]
      decreases j
    {
      j := j - 1;
    }
  }

  /** Partitions around the median of three. */
  method Partition(a: array<int>, left: int, right: int, ghost s: seq<int>) returns (i: int)
    requires 0 <= left && left + CUTOFF <= right < a.Length && s == a[..]
    modifies a
    ensures Rearranged(s, a[..], left, right + 1)
    ensures left < i < right
    ensures (forall k :: left <= k < i ==> a[k] <= a[i]) && (forall k :: i < k <= right ==> a[i] <= a[k])
  {
    var pivot := Median3(a, left, right, s);
    i := left;
    var j := right - 1;
    while true
      invariant left <= i < j <= right - 1
      invariant Rearranged(s, a[..], left, right + 1)
      invariant a[right - 1] == pivot && Parted(a[..], left, right, i, j, pivot)
      decreases j - i
    {
      i, j := Scan(a, left, right, i, j, pivot);
      if i < j {
        SwapReferences(a, i, j, s, left, right + 1);
      } else {
        break;
      }
    }
    SwapReferences(a, i, right - 1, s, left, right + 1);
  }

  // ---------- Insertion sort ----------

  /** Sorts the stretch from left to right. */
  method InsertionSort(a: array<int>, left: int, right: int, ghost s: seq<int>)
    requires 0 <= left <= right + 1 <= a.Length && s == a[..]
    modifies a
    ensures Rearranged(s, a[..], left, right + 1) && Ordered(a[..], left, right + 1)
  {
    var p := left + 1;
    while p <= right
      invariant left + 1 <= p && (p <= right + 1 || p == left + 1)
      invariant Rearranged(s, a[..], left, right + 1)
      invariant Ordered(a[..], left, if p <= right + 1 then p else right + 1)
    {
      InsertInto(a, left, p, right, s);
      p := p + 1;
    }
  }

  /** w[left..p] is in order but for w[j], which belongs no later than where it is. */
  ghost predicate OrderedBut(w: seq<int>, left: int, p: int, j: int) {
    0 <= left <= j <= p < |w| && (forall i, k :: left <= i < k <= p && i != j && k != j ==> w[i] <= w[k]) &&
    (forall k :: j < k <= p ==> w[j] < w[k])
  }

  lemma MovedDown(w: seq<int>, v: seq<int>, left: int, p: int, j: int)
    requires OrderedBut(w, left, p, j) && left < j && w[j] < w[j - 1] && v == w[j := w[j - 1]][j - 1 := w[j]]
    ensures OrderedBut(v, left, p, j - 1)
  {}

  /** t is w but for cell j, where the element tmp of w is missing: it is being moved down. */
  ghost predicate Lifted(t: seq<int>, w: seq<int>, j: int, tmp: int) {
    0 <= j < |w| == |t| && w[j] == tmp && t == w[j := t[j]]
  }

  lemma ShiftDown(s: seq<int>, t: seq<int>, w: seq<int>, left: int, right: int, p: int, j: int, tmp: int)
    returns (v: seq<int>)
    requires Rearranged(s, w, left, right + 1) && OrderedBut(w, left, p, j) && Lifted(t, w, j, tmp)
    requires p <= right && left < j && tmp < t[j - 1]
    ensures Rearranged(s, v, left, right + 1) && OrderedBut(v, left, p, j - 1)
    ensures Lifted(t[j := t[j - 1]], v, j - 1, tmp)
  {
    v := w[j := w[j - 1]][j - 1 := w[j]];
    SwapRearranges(s, w, v, left, right + 1, j, j - 1);
    MovedDown(w, v, left, p, j);
  }

  lemma InPlace(w: seq<int>, left: int, p: int, j: int)
    requires OrderedBut(w, left, p, j) && (left < j ==> w[j - 1] <= w[j])
    ensures Ordered(w, left, p + 1)
  {}

  /** Moves a[p] down to its place among the ordered elements before it. */
  method InsertInto(a: array<int>, left: int, p: int, right: int, ghost s: seq<int>)
    requires 0 <= left < p <= right < a.Length && Rearranged(s, a[..], left, right + 1) && Ordered(a[..], left, p)
    modifies a
    ensures Rearranged(s, a[..], left, right + 1) && Ordered(a[..], left, p + 1)
  {
    var tmp := a[p];
    var j := p;
    ghost var w := a[..];
    while j > left && tmp < a[j - 1]
      invariant left <= j <= p && Lifted(a[..], w, j, tmp)
      invariant Rearranged(s, w, left, right + 1) && OrderedBut(w, left, p, j)
    {
      w := ShiftDown(s, a[..], w, left, right, p, j, tmp);
      a[j] := a[j - 1];
      j := j - 1;
    }
    a[j] := tmp;
    assert a[..] == w;
    InPlace(w, left, p, j);
  }

  // ---------- Quicksort ----------

  /** Two ordered stretches, one below and one above the element between them, make one. */
  lemma Joined(t: seq<int>, left: int, i: int, to: int)
    requires 0 <= left <= i < to <= |t| && Ordered(t, left, i) && Ordered(t, i + 1, to)
    requires (forall k :: left <= k < i ==> t[k] <= t[i]) && (forall k :: i < k < to ==> t[i] <= t[k])
    ensures Ordered(t, left, to)
  {}

  /** What a partition established outlasts any rearrangement of one of its sides. */
  lemma SidesKept(s: seq<int>, t: seq<int>, left: int, i: int, to: int, from': int, to': int)
    requires 0 <= left <= i < to <= |s| && Rearranged(s, t, from', to') && left <= from' && to' <= to &&
             (to' <= i || i < from')
    requires (forall k :: left <= k < i ==> s[k] <= s[i]) && (forall k :: i < k < to ==> s[i] <= s[k])
    ensures t[i] == s[i] && (forall k :: left <= k < i ==> t[k] <= t[i]) && (forall k :: i < k < to ==> t[i] <= t[k])
  {
    forall k | left <= k < to && !(from' <= k < to')
      ensures t[k] == s[k]
    {
      if k < from' {
        assert t[k] == t[..from'][k] == s[..from'][k];
      } else {
        assert t[k] == t[to'..][k - to'] == s[to'..][k - to'];
      }
    }
    SliceRearranged(s, t, from', to');
    forall k | from' <= k < to'
      ensures k < i ==> t[k] <= t[i]
      ensures i < k ==> t[i] <= t[k]
    {
      assert t[from'..to'][k - from'] in multiset(t[from'..to']);
      assert t[k] in s[from'..to'];
    }
  }

  lemma OrderKept(s: seq<int>, t: seq<int>, from: int, to: int, from': int, to': int)
    requires Ordered(s, from, to) && Rearranged(s, t, from', to') && 0 <= from <= to <= |s| &&
             (to <= from' || to' <= from)
    ensures Ordered(t, from, to)
  {}

  method Quicksort(a: array<int>)
    modifies a
    ensures multiset(a[..]) == multiset(old(a[..]))
    ensures forall i, j :: 0 <= i < j < a.Length ==> a[i] <= a[j]
  {
    QuicksortRange(a, 0, a.Length - 1, a[..]);
    assert Ordered(a[..], 0, a.Length);
  }

  method QuicksortRange(a: array<int>, left: int, right: int, ghost s: seq<int>)
    requires 0 <= left <= right + 1 <= a.Length && s == a[..]
    modifies a
    ensures Rearranged(s, a[..], left, right + 1) && Ordered(a[..], left, right + 1)
    decreases right - left
  {
    if left + CUTOFF <= right {
      var i := Partition(a, left, right, s);
      ghost var to := right + 1;
      ghost var t := a[..];
      QuicksortRange(a, left, i - 1, t);
      ghost var u := a[..];
      SidesKept(t, u, left, i, to, left, i);
      RearrangedWider(t, u, left, i, left, to);
      QuicksortRange(a, i + 1, right, u);
      ghost var v := a[..];
      SidesKept(u, v, left, i, to, i + 1, to);
      RearrangedWider(u, v, i + 1, to, left, to);
      OrderKept(u, v, left, i, i + 1, to);
      Joined(v, left, i, to);
    } else {
      InsertionSort(a, left, right, s);
    }
  }

  // ---------- Quickselect ----------

  /** Nothing before place k of the stretch is larger than what is in it, and nothing after smaller. */
  ghost predicate Selected(t: seq<int>, left: int, to: int, k: int) {
    0 <= left <= k < to <= |t| && (forall m :: left <= m < k ==> t[m] <= t[k]) &&
    (forall m :: k < m < to ==> t[k] <= t[m])
  }

  /** Places the kth smallest item in a[k - 1]. */
  method QuickSelect(a: array<int>, k: int)
    modifies a
    ensures multiset(a[..]) == multiset(old(a[..]))
    ensures 1 <= k <= a.Length ==> Selected(a[..], 0, a.Length, k - 1)
  {
    QuickSelectRange(a, 0, a.Length - 1, k, a[..]);
  }

  method QuickSelectRange(a: array<int>, left: int, right: int, k: int, ghost s: seq<int>)
    requires 0 <= left <= right + 1 <= a.Length && s == a[..]
    modifies a
    ensures Rearranged(s, a[..], left, right + 1)
    ensures left < k <= right + 1 ==> Selected(a[..], left, right + 1, k - 1)
    decreases right - left
  {
    ghost var to := right + 1;
    if left + CUTOFF <= right {
      var i := Partition(a, left, right, s);
      ghost var t := a[..];
      if k <= i {
        QuickSelectRange(a, left, i - 1, k, t);
        SidesKept(t, a[..], left, i, to, left, i);
        RearrangedWider(t, a[..], left, i, left, to);
      } else if k > i + 1 {
        QuickSelectRange(a, i + 1, right, k, t);
        SidesKept(t, a[..], left, i, to, i + 1, to);
        RearrangedWider(t, a[..], i + 1, to, left, to);
      }
    } else {
      InsertionSort(a, left, right, s);
    }
  }

  lemma SmallerMultiset(a: multiset<int>, b: multiset<int>)
    requires a <= b
    ensures |a| <= |b|
  {
    assert b == a + (b - a);
  }

  /** A selected element is the one that sorting would put there. */
  lemma SelectedIsRank(s: seq<int>, t: seq<int>, k: nat)
    requires k < |s| && Selected(s, 0, |s|, k) && multiset(s) == multiset(t) && Ordered(t, 0, |t|)
    ensures |t| == |s| && t[k] == s[k]
  {
    assert |multiset(s)| == |s| && |multiset(t)| == |t|;
    NotSmaller(s, t, k);
    NotLarger(s, t, k);
  }

  lemma NotSmaller(s: seq<int>, t: seq<int>, k: nat)
    requires k < |s| == |t| && Selected(s, 0, |s|, k) && multiset(s) == multiset(t) && Ordered(t, 0, |t|)
    ensures t[k] >= s[k]
  {
    if t[k] < s[k] {
      var low, rest := t[..k + 1], s[k..];
      assert s == s[..k] + rest && t == low + t[k + 1..];
      forall x
        ensures multiset(low)[x] <= multiset(s[..k])[x]
      {
        assert multiset(t)[x] == multiset(low)[x] + multiset(t[k + 1..])[x];
        assert multiset(s)[x] == multiset(s[..k])[x] + multiset(rest)[x];
        if x in low {
          assert x !in rest && x !in multiset(rest);
        }
      }
      SmallerMultiset(multiset(low), multiset(s[..k]));
    }
  }

  lemma NotLarger(s: seq<int>, t: seq<int>, k: nat)
    requires k < |s| == |t| && Selected(s, 0, |s|, k) && multiset(s) == multiset(t) && Ordered(t, 0, |t|)
    ensures t[k] <= s[k]
  {
    if t[k] > s[k] {
      var high, rest := t[k..], s[..k + 1];
      assert s == rest + s[k + 1..] && t == t[..k] + high;
      forall x
        ensures multiset(high)[x] <= multiset(s[k + 1..])[x]
      {
        assert multiset(t)[x] == multiset(t[..k])[x] + multiset(high)[x];
        assert multiset(s)[x] == multiset(rest)[x] + multiset(s[k + 1..])[x];
        if x in high {
          assert x !in rest && x !in multiset(rest);
        }
      }
      SmallerMultiset(multiset(high), multiset(s[k + 1..]));
    }
  }
}
