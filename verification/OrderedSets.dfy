/** The plain ordered set of integers that every search structure is measured against. */
module OrderedSets {
  import opened Basics

  datatype Op = InsertOp(x: int) | RemoveOp(x: int) | FindOp(x: int) | FindMinOp | FindMaxOp | MakeEmptyOp

  ghost function ApplyOne(s: set<int>, op: Op): set<int> {
    match op
    case InsertOp(x) => s + {x}
    case RemoveOp(x) => s - {x}
    case MakeEmptyOp => {}
    case _ => s
  }

  /** The set after a run of operations on s. */
  ghost function Apply(s: set<int>, ops: seq<Op>): set<int> {
    if ops == [] then s else ApplyOne(Apply(s, ops[..|ops| - 1]), ops[|ops| - 1])
  }

  lemma ApplyPrefix(s: set<int>, ops: seq<Op>, i: nat)
    requires i < |ops|
    ensures Apply(s, ops[..i + 1]) == ApplyOne(Apply(s, ops[..i]), ops[i])
  {
    assert ops[..i + 1][..i] == ops[..i];
  }

  /** What the operations do where removal is not implemented, and the sentinel's own key is not taken for an item. */
  ghost function Effect(s: set<int>, op: Op, sentinel: int): set<int> {
    if op.RemoveOp? || op == InsertOp(sentinel) then s else ApplyOne(s, op)
  }

  ghost function Effects(s: set<int>, ops: seq<Op>, sentinel: int): set<int> {
    if ops == [] then s else Effect(Effects(s, ops[..|ops| - 1], sentinel), ops[|ops| - 1], sentinel)
  }

  lemma EffectsPrefix(s: set<int>, ops: seq<Op>, sentinel: int, i: nat)
    requires i < |ops|
    ensures Effects(s, ops[..i + 1], sentinel) == Effect(Effects(s, ops[..i], sentinel), ops[i], sentinel)
  {
    assert ops[..i + 1][..i] == ops[..i];
  }

  ghost predicate IsLeast(s: set<int>, m: int) {
    m in s && forall y :: y in s ==> m <= y
  }

  ghost predicate IsGreatest(s: set<int>, m: int) {
    m in s && forall y :: y in s ==> y <= m
  }

  /** Whether the answer is the one that a plain set s gives to op. */
  ghost predicate Answers(s: set<int>, op: Op, answer: Option<int>) {
    match op
    case FindOp(x) => answer == if x in s then Some(x) else None
    case FindMinOp => if s == {} then answer.None? else answer.Some? && IsLeast(s, answer.value)
    case FindMaxOp => if s == {} then answer.None? else answer.Some? && IsGreatest(s, answer.value)
    case _ => answer.None?
  }

  /** The answers, and the effects of the operations, in terms of what is in the set. */
  lemma AnswersMean(s: set<int>, op: Op, answer: Option<int>)
    requires Answers(s, op, answer)
    ensures op.FindOp? ==> answer == if op.x in s then Some(op.x) else None
    ensures op.FindMinOp? || op.FindMaxOp? ==> (answer == None <==> s == {}) && (answer.Some? ==> answer.value in s)
    ensures op.FindMinOp? && answer.Some? ==> forall y :: y in s ==> answer.value <= y
    ensures op.FindMaxOp? && answer.Some? ==> forall y :: y in s ==> y <= answer.value
    ensures op.InsertOp? || op.RemoveOp? || op.MakeEmptyOp? ==> answer == None
  {}

  lemma EffectsMean(s: set<int>, op: Op, sentinel: int, y: int)
    ensures op.InsertOp? ==> (y in ApplyOne(s, op) <==> y in s || y == op.x)
    ensures op.RemoveOp? ==> (y in ApplyOne(s, op) <==> y in s && y != op.x)
    ensures op.MakeEmptyOp? ==> y !in ApplyOne(s, op)
    ensures op.FindOp? || op.FindMinOp? || op.FindMaxOp? ==> ApplyOne(s, op) == s
    ensures Effect(s, op, sentinel) == if op.RemoveOp? || (op.InsertOp? && op.x == sentinel) then s else ApplyOne(s, op)
  {}

  /** Each answer is the one that the plain set gave at that moment. */
  ghost predicate AllAnswered(s: set<int>, ops: seq<Op>, answers: seq<Option<int>>) {
    |answers| <= |ops| && forall i :: 0 <= i < |answers| ==> Answers(Apply(s, ops[..i]), ops[i], answers[i])
  }

  /** After as many operations as there are answers, the plain set s0 has become s. */
  ghost predicate Followed(s0: set<int>, ops: seq<Op>, answers: seq<Option<int>>, s: set<int>) {
    AllAnswered(s0, ops, answers) && s == Apply(s0, ops[..|answers|])
  }

  lemma FollowedOn(s0: set<int>, ops: seq<Op>, answers: seq<Option<int>>, s: set<int>, answer: Option<int>)
    requires Followed(s0, ops, answers, s) && |answers| < |ops| && Answers(s, ops[|answers|], answer)
    ensures Followed(s0, ops, answers + [answer], ApplyOne(s, ops[|answers|]))
  {
    ApplyPrefix(s0, ops, |answers|);
  }

  ghost predicate Sorted(s: seq<int>) {
    forall i, j :: 0 <= i < j < |s| ==> s[i] < s[j]
  }

  ghost function Elements(s: seq<int>): set<int> {
    set x | x in s
  }

  lemma SortedParts(a: seq<int>, e: int, b: seq<int>)
    requires Sorted(a + [e] + b)
    ensures Sorted(a) && Sorted(b) && (forall y :: y in a ==> y < e) && (forall y :: y in b ==> e < y)
  {
    var s := a + [e] + b;
    assert forall i :: 0 <= i < |a| ==> a[i] == s[i];
    assert forall i :: 0 <= i < |b| ==> b[i] == s[|a| + 1 + i];
    assert s[|a|] == e;
  }

  lemma SortedWhole(a: seq<int>, e: int, b: seq<int>)
    requires Sorted(a) && Sorted(b) && (forall y :: y in a ==> y < e) && (forall y :: y in b ==> e < y)
    ensures Sorted(a + [e] + b)
  {
    assert forall i :: 0 <= i < |a| ==> a[i] in a;
    assert forall i :: 0 <= i < |b| ==> b[i] in b;
  }

  lemma ElementsOf(a: seq<int>, e: int, b: seq<int>)
    ensures Elements(a + [e] + b) == Elements(a) + {e} + Elements(b)
  {}

  lemma SortedInsert(a: seq<int>, x: int, b: seq<int>)
    requires Sorted(a + b) && (forall y :: y in a ==> y < x) && (forall y :: y in b ==> x < y)
    ensures Sorted(a + [x] + b) && Elements(a + [x] + b) == Elements(a + b) + {x}
  {
    assert forall i :: 0 <= i < |a| ==> (a + b)[i] == a[i];
    assert forall i :: 0 <= i < |b| ==> (a + b)[|a| + i] == b[i];
    SortedWhole(a, x, b);
    ElementsOf(a, x, b);
    assert Elements(a + b) == Elements(a) + Elements(b);
  }

  /** The least and the greatest element of a sorted sequence are its ends. */
  lemma SortedEnds(s: seq<int>)
    requires Sorted(s) && s != []
    ensures IsLeast(Elements(s), s[0]) && IsGreatest(Elements(s), s[|s| - 1])
  {}
}
