/** What a splay costs: the passes of its loop, paid for by a potential of the tree. */
module SplayCosts {
  import opened Basics
  import opened OrderedSets
  import opened SplayTrees

  // ---------- Lengths in bits ----------

  /** n can be written with b bits, and not with fewer. */
  ghost predicate HasBits(n: nat, b: nat) {
    forall k: nat :: b <= k <==> n < Pow2(k)
  }

  lemma {:induction false} BitsExist(n: nat)
    ensures exists b: nat :: HasBits(n, b)
  {
    if n == 0 {
      assert HasBits(n, 0);
    } else {
      BitsExist(n - 1);
      var b: nat :| HasBits(n - 1, b);
      var c := if n < Pow2(b) then b else b + 1;
      forall k: nat ensures c <= k <==> n < Pow2(k) {
        if c <= k {
          Pow2Monotone(c, k);
        } else {
          Pow2Monotone(k, c - 1);
        }
      }
      assert HasBits(n, c);
    }
  }

  ghost function Bits(n: nat): nat {
    BitsExist(n);
    var b: nat :| HasBits(n, b);
    b
  }

  /** The bits of n are the least b with n below 2^b. */
  lemma BitsMean(n: nat, b: nat)
    ensures n < Pow2(Bits(n)) && (n < Pow2(b) ==> Bits(n) <= b)
  {
    assert HasBits(n, Bits(n));
  }

  lemma BitsGrow(m: nat, n: nat)
    requires m <= n
    ensures Bits(m) <= Bits(n)
  {
    assert HasBits(m, Bits(m)) && HasBits(n, Bits(n));
    assert n < Pow2(Bits(n));
  }

  lemma BitsPositive(n: nat)
    requires n > 0
    ensures Bits(n) >= 1
  {
    assert HasBits(n, Bits(n)) && Pow2(0) == 1;
  }

  /** Of two parts of a whole one is shorter than it. */
  lemma PartsAreShorter(a: nat, b: nat, n: nat)
    requires a + b <= n && n > 0
    ensures Bits(a) + Bits(b) <= 2 * Bits(n) - 1
  {
    BitsGrow(a, n);
    BitsGrow(b, n);
    var k := Bits(n);
    assert HasBits(a, Bits(a)) && HasBits(b, Bits(b)) && HasBits(n, k);
    assert n < Pow2(k) && k > 0;
    assert Pow2(k) == Pow2(k - 1) + Pow2(k - 1);
  }

  // ---------- The potential ----------

  ghost function Potential<N>(s: Shape<N>): nat {
    match s
    case Leaf => 0
    case Branch(l, _, _, r) => Potential(l) + Potential(r) + Bits(Size(s))
  }

  /** That of an open spine below whose end g nodes are going to hang. */
  ghost function SpinePotential<N>(p: Spine<N>, g: nat): nat {
    match p
    case End => 0
    case Link(rest, side, _, _) =>
      var n := Size(side) + 1 + g;
      Bits(n) + Potential(side) + SpinePotential(rest, n)
  }

  ghost function SpineSize<N>(p: Spine<N>): nat {
    match p
    case End => 0
    case Link(rest, side, _, _) => SpineSize(rest) + Size(side) + 1
  }

  lemma UnfoldSpine<N>(p: Spine<N>, g: nat)
    requires p.Link?
    ensures var n := Size(p.side) + 1 + g;
            SpinePotential(p, g) == Bits(n) + Potential(p.side) + SpinePotential(p.rest, n)
  {}

  lemma {:induction false} SpineGrows<N>(p: Spine<N>, g: nat, h: nat)
    requires g <= h
    ensures SpinePotential(p, g) <= SpinePotential(p, h)
  {
    if p.Link? {
      var m, n := Size(p.side) + 1 + g, Size(p.side) + 1 + h;
      UnfoldSpine(p, g);
      UnfoldSpine(p, h);
      BitsGrow(m, n);
      SpineGrows(p.rest, m, n);
    }
  }

  /** The tree of smaller keys, closed with s at its end. */
  ghost function ClosedLeft<N>(p: Spine<N>, s: Shape<N>): Shape<N> {
    if p.End? then s else ClosedLeft(p.rest, Branch(p.side, p.node, p.key, s))
  }

  ghost function ClosedRight<N>(p: Spine<N>, s: Shape<N>): Shape<N> {
    if p.End? then s else ClosedRight(p.rest, Branch(s, p.node, p.key, p.side))
  }

  lemma {:induction false} ClosedLeftKeys<N>(p: Spine<N>, s: Shape<N>)
    ensures Nodes(ClosedLeft(p, s)) == SpineNodes(p) + Nodes(s)
    ensures InOrder(ClosedLeft(p, s)) == LeftKeys(p) + InOrder(s)
    decreases p
  {
    if p.Link? {
      var s' := Branch(p.side, p.node, p.key, s);
      assert LeftKeys(p.rest) + InOrder(s') == LeftKeys(p) + InOrder(s);
      ClosedLeftKeys(p.rest, s');
    }
  }

  lemma {:induction false} ClosedRightKeys<N>(p: Spine<N>, s: Shape<N>)
    ensures Nodes(ClosedRight(p, s)) == SpineNodes(p) + Nodes(s)
    ensures InOrder(ClosedRight(p, s)) == InOrder(s) + RightKeys(p)
    decreases p
  {
    if p.Link? {
      var s' := Branch(s, p.node, p.key, p.side);
      assert InOrder(s') + RightKeys(p.rest) == InOrder(s) + RightKeys(p);
      ClosedRightKeys(p.rest, s');
    }
  }

  lemma {:induction false} ClosedCosts<N>(p: Spine<N>, s: Shape<N>)
    ensures Potential(ClosedLeft(p, s)) == SpinePotential(p, Size(s)) + Potential(s)
    ensures Potential(ClosedRight(p, s)) == SpinePotential(p, Size(s)) + Potential(s)
    ensures Size(ClosedLeft(p, s)) == Size(ClosedRight(p, s)) == SpineSize(p) + Size(s)
    decreases p
  {
    if p.Link? {
      ClosedCosts(p.rest, Branch(p.side, p.node, p.key, s));
      ClosedCosts(p.rest, Branch(s, p.node, p.key, p.side));
    }
  }

  // ---------- The keys on either side of x ----------

  ghost function Less<N>(x: int, s: Shape<N>): nat {
    match s
    case Leaf => 0
    case Branch(l, _, key, r) => Less(x, l) + Less(x, r) + if key < x then 1 else 0
  }

  ghost function More<N>(x: int, s: Shape<N>): nat {
    match s
    case Leaf => 0
    case Branch(l, _, key, r) => More(x, l) + More(x, r) + if key > x then 1 else 0
  }

  lemma {:induction false} LessAndMore<N>(x: int, s: Shape<N>)
    ensures Less(x, s) + More(x, s) <= Size(s)
  {
    if s.Branch? {
      LessAndMore(x, s.left);
      LessAndMore(x, s.right);
    }
  }

  lemma {:induction false} AllMore<N>(x: int, s: Shape<N>)
    requires forall y :: y in InOrder(s) ==> x < y
    ensures Less(x, s) == 0 && More(x, s) == Size(s)
  {
    if s.Branch? {
      assert InOrder(s)[|InOrder(s.left)|] == s.key && s.key in InOrder(s);
      forall y | y in InOrder(s.left) ensures y in InOrder(s) {}
      forall y | y in InOrder(s.right) ensures y in InOrder(s) {}
      AllMore(x, s.left);
      AllMore(x, s.right);
    }
  }

  lemma {:induction false} AllLess<N>(x: int, s: Shape<N>)
    requires forall y :: y in InOrder(s) ==> y < x
    ensures Less(x, s) == Size(s) && More(x, s) == 0
  {
    if s.Branch? {
      assert InOrder(s)[|InOrder(s.left)|] == s.key && s.key in InOrder(s);
      forall y | y in InOrder(s.left) ensures y in InOrder(s) {}
      forall y | y in InOrder(s.right) ensures y in InOrder(s) {}
      AllLess(x, s.left);
      AllLess(x, s.right);
    }
  }

  /** What lies right of a root above x. */
  lemma RightOfRoot<N>(x: int, s: Shape<N>)
    requires s.Branch? && x < s.key && Sorted(InOrder(s))
    ensures Less(x, s) == Less(x, s.left) && More(x, s) == More(x, s.left) + 1 + Size(s.right)
  {
    SortedParts(InOrder(s.left), s.key, InOrder(s.right));
    AllMore(x, s.right);
  }

  lemma LeftOfRoot<N>(x: int, s: Shape<N>)
    requires s.Branch? && x > s.key && Sorted(InOrder(s))
    ensures More(x, s) == More(x, s.right) && Less(x, s) == Less(x, s.right) + 1 + Size(s.left)
  {
    SortedParts(InOrder(s.left), s.key, InOrder(s.right));
    AllLess(x, s.left);
  }

  // ---------- One pass of the loop ----------

  /** The potential of the three pieces: below the end of each spine hang the keys of the middle tree on its side. */
  ghost function PiecesPotential<N>(x: int, l: Spine<N>, s: Shape<N>, r: Spine<N>): nat {
    SpinePotential(l, Less(x, s)) + Potential(s) + SpinePotential(r, More(x, s))
  }

  lemma LinkedRight<N>(x: int, l: Spine<N>, s: Shape<N>, r: Spine<N>)
    requires s.Branch? && x < s.key && Sorted(InOrder(s))
    ensures PiecesPotential(x, l, s.left, Link(r, s.right, s.node, s.key)) + Bits(Size(s))
            == PiecesPotential(x, l, s, r) + Bits(More(x, s))
  {
    RightOfRoot(x, s);
    UnfoldPotential(s);
    assert Size(s.right) + 1 + More(x, s.left) == More(x, s);
    UnfoldSpine(Link(r, s.right, s.node, s.key), More(x, s.left));
  }

  lemma LinkedLeft<N>(x: int, l: Spine<N>, s: Shape<N>, r: Spine<N>)
    requires s.Branch? && x > s.key && Sorted(InOrder(s))
    ensures PiecesPotential(x, Link(l, s.left, s.node, s.key), s.right, r) + Bits(Size(s))
            == PiecesPotential(x, l, s, r) + Bits(Less(x, s))
  {
    LeftOfRoot(x, s);
    UnfoldPotential(s);
    assert Size(s.left) + 1 + Less(x, s.right) == Less(x, s);
    UnfoldSpine(Link(l, s.left, s.node, s.key), Less(x, s.right));
  }

  lemma UnfoldCounts<N>(x: int, s: Shape<N>)
    requires s.Branch?
    ensures Less(x, s) == Less(x, s.left) + Less(x, s.right) + if s.key < x then 1 else 0
    ensures More(x, s) == More(x, s.left) + More(x, s.right) + if s.key > x then 1 else 0
    ensures Size(s) == Size(s.left) + 1 + Size(s.right)
  {}

  ghost function RotatedLeft<N>(s: Shape<N>): Shape<N>
    requires s.Branch? && s.left.Branch?
  {
    Branch(s.left.left, s.left.node, s.left.key, Branch(s.left.right, s.node, s.key, s.right))
  }

  ghost function RotatedRight<N>(s: Shape<N>): Shape<N>
    requires s.Branch? && s.right.Branch?
  {
    Branch(Branch(s.left, s.node, s.key, s.right.left), s.right.node, s.right.key, s.right.right)
  }

  lemma RotatedLeftCosts<N>(x: int, l: Spine<N>, s: Shape<N>, r: Spine<N>)
    requires s.Branch? && s.left.Branch?
    ensures Size(RotatedLeft(s)) == Size(s) && InOrder(RotatedLeft(s)) == InOrder(s)
    ensures More(x, RotatedLeft(s)) == More(x, s)
    ensures PiecesPotential(x, l, RotatedLeft(s), r) + Bits(Size(s.left))
            == PiecesPotential(x, l, s, r) + Bits(Size(s.left.right) + 1 + Size(s.right))
  {
    var z := RotatedLeft(s);
    Regrouped(InOrder(s.left.left), s.left.key, InOrder(s.left.right), s.key, InOrder(s.right));
    UnfoldCounts(x, s);
    UnfoldCounts(x, s.left);
    UnfoldCounts(x, z);
    UnfoldCounts(x, z.right);
    UnfoldPotential(s);
    UnfoldPotential(s.left);
    UnfoldPotential(z);
    UnfoldPotential(z.right);
  }

  lemma RotatedRightCosts<N>(x: int, l: Spine<N>, s: Shape<N>, r: Spine<N>)
    requires s.Branch? && s.right.Branch?
    ensures Size(RotatedRight(s)) == Size(s) && InOrder(RotatedRight(s)) == InOrder(s)
    ensures Less(x, RotatedRight(s)) == Less(x, s)
    ensures PiecesPotential(x, l, RotatedRight(s), r) + Bits(Size(s.right))
            == PiecesPotential(x, l, s, r) + Bits(Size(s.left) + 1 + Size(s.right.left))
  {
    var z := RotatedRight(s);
    Regrouped(InOrder(s.left), s.key, InOrder(s.right.left), s.right.key, InOrder(s.right.right));
    UnfoldCounts(x, s);
    UnfoldCounts(x, s.right);
    UnfoldCounts(x, z);
    UnfoldCounts(x, z.left);
    UnfoldPotential(s);
    UnfoldPotential(s.right);
    UnfoldPotential(z);
    UnfoldPotential(z.left);
  }

  /** The middle tree after the rotation, if the search goes the same way twice. */
  ghost function ZiggedLeft<N>(x: int, s: Shape<N>): (z: Shape<N>)
    requires s.Branch?
    ensures z.Branch?
  {
    if s.left.Branch? && x < s.left.key then RotatedLeft(s) else s
  }

  ghost function ZiggedRight<N>(x: int, s: Shape<N>): (z: Shape<N>)
    requires s.Branch?
    ensures z.Branch?
  {
    if s.right.Branch? && x > s.right.key then RotatedRight(s) else s
  }

  lemma ZiggedSizes<N>(x: int, s: Shape<N>)
    requires s.Branch?
    ensures Size(ZiggedLeft(x, s).left) < Size(s) && Size(ZiggedRight(x, s).right) < Size(s)
  {
    if s.left.Branch? {
      UnfoldCounts(x, RotatedLeft(s));
    }
    if s.right.Branch? {
      UnfoldCounts(x, RotatedRight(s));
    }
  }

  /** The passes of the loop that seeks x from s on; in the empty tree the sentinel matches in the first one. */
  ghost function SplayPasses<N>(x: int, s: Shape<N>): nat
    decreases Size(s)
  {
    if s.Leaf? || x == s.key then
      1
    else
      ZiggedSizes(x, s);
      var below := if x < s.key then ZiggedLeft(x, s).left else ZiggedRight(x, s).right;
      if below.Leaf? then 1 else 1 + SplayPasses(x, below)
  }

  /** Whether the last pass linked without a rotation, and so has still to be paid for: by the next one,
      which must go the other way. */
  datatype Debt = Free | AfterRight | AfterLeft

  /** The passes so far, and what is left of the budget. */
  ghost predicate Paid<N>(x: int, l: Spine<N>, s: Shape<N>, r: Spine<N>, passes: int, debt: Debt, budget: int)
    requires s.Branch?
  {
    var p, b := PiecesPotential(x, l, s, r), Bits(Size(s));
    match debt
    case Free => passes + 2 * p + 4 * b <= budget
    case AfterRight => s.key <= x && passes + 2 * p + 2 * Bits(Less(x, s)) + 2 * b + 1 <= budget
    case AfterLeft => x <= s.key && passes + 2 * p + 2 * Bits(More(x, s)) + 2 * b + 1 <= budget
  }

  // The arithmetic of a pass: p and b stand for the potential and the bits of the middle tree before it,
  // p' and b' after.

  lemma SinglePass(passes: int, p: int, p': int, b: int, b': int, near: int, far: int, budget: int)
    requires p' + b == p + near && near + far <= 2 * b - 1 && 0 <= b' <= b
    ensures passes + 2 * p + 4 * b <= budget ==> passes + 1 + 2 * p' + 2 * far + 2 * b' + 1 <= budget
    ensures passes + 2 * p + 2 * near + 2 * b + 1 <= budget ==> passes + 1 + 2 * p' + 4 * b' <= budget
  {}

  lemma DoublePass(passes: int, p: int, p': int, b: int, b': int, child: int, below: int, near: int, budget: int)
    requires p' + child + b == p + below + near && below + b' <= 2 * b - 1 && 0 <= b' <= child && near <= b
    ensures passes + 2 * p + 4 * b <= budget ==> passes + 1 + 2 * p' + 4 * b' <= budget
    ensures passes + 2 * p + 2 * near + 2 * b + 1 <= budget ==> passes + 1 + 2 * p' + 4 * b' <= budget
  {}

  /** The part of Paid that a pass toward one side can count on; near is the number of keys on the other. */
  ghost predicate PaidToward(passes: int, p: int, b: int, near: int, budget: int) {
    passes + 2 * p + 4 * b <= budget || passes + 2 * p + 2 * near + 2 * b + 1 <= budget
  }

  /** A pass to the left ends the loop or goes on with its part of the budget. */
  lemma PassLeft<N>(x: int, l: Spine<N>, s: Shape<N>, r: Spine<N>, passes: int, debt: Debt, budget: int)
    returns (debt': Debt)
    requires s.Branch? && x < s.key && Sorted(InOrder(s)) && Paid(x, l, s, r, passes, debt, budget)
    ensures var z := ZiggedLeft(x, s);
            if z.left.Leaf? then passes + 1 + 2 * PiecesPotential(x, l, z, r) <= budget
            else Paid(x, l, z.left, Link(r, z.right, z.node, z.key), passes + 1, debt', budget)
  {
    debt' := Free;
    BitsPositive(Size(s));
    if ZiggedLeft(x, s) != s {
      DoubleLeft(x, l, s, r, passes, budget);
    } else if s.left.Branch? {
      debt' := SingleLeft(x, l, s, r, passes, debt, budget);
    }
  }

  lemma SingleLeft<N>(x: int, l: Spine<N>, s: Shape<N>, r: Spine<N>, passes: int, debt: Debt, budget: int)
    returns (debt': Debt)
    requires s.Branch? && s.left.Branch? && s.left.key <= x < s.key && Sorted(InOrder(s))
    requires Paid(x, l, s, r, passes, debt, budget)
    ensures Paid(x, l, s.left, Link(r, s.right, s.node, s.key), passes + 1, debt', budget)
  {
    LinkedRight(x, l, s, r);
    RightOfRoot(x, s);
    LessAndMore(x, s);
    PartsAreShorter(Less(x, s), More(x, s), Size(s));
    BitsGrow(Size(s.left), Size(s));
    SinglePass(passes, PiecesPotential(x, l, s, r), PiecesPotential(x, l, s.left, Link(r, s.right, s.node, s.key)),
               Bits(Size(s)), Bits(Size(s.left)), Bits(More(x, s)), Bits(Less(x, s)), budget);
    debt' := if debt.Free? then AfterRight else Free;
  }

  lemma DoubleLeft<N>(x: int, l: Spine<N>, s: Shape<N>, r: Spine<N>, passes: int, budget: int)
    requires s.Branch? && s.left.Branch? && x < s.left.key && x < s.key && Sorted(InOrder(s))
    requires PaidToward(passes, PiecesPotential(x, l, s, r), Bits(Size(s)), Bits(More(x, s)), budget)
    ensures var z := RotatedLeft(s);
            if z.left.Leaf? then passes + 1 + 2 * PiecesPotential(x, l, z, r) <= budget
            else Paid(x, l, z.left, Link(r, z.right, z.node, z.key), passes + 1, Free, budget)
  {
    var z := RotatedLeft(s);
    RotatedLeftCosts(x, l, s, r);
    DoubleLeftBits(x, s);
    if z.left.Branch? {
      LinkedRight(x, l, z, r);
      DoublePass(passes, PiecesPotential(x, l, s, r), PiecesPotential(x, l, z.left, Link(r, z.right, z.node, z.key)),
                 Bits(Size(s)), Bits(Size(z.left)), Bits(Size(s.left)), Bits(Size(z.right)), Bits(More(x, s)), budget);
    }
  }

  lemma DoubleLeftBits<N>(x: int, s: Shape<N>)
    requires s.Branch? && s.left.Branch?
    ensures var z := RotatedLeft(s);
            var b := Bits(Size(s));
            b >= 1 && Bits(More(x, s)) <= b && Bits(Size(z.right)) <= b && Bits(Size(z.left)) <= Bits(Size(s.left)) &&
            Bits(Size(z.left)) + Bits(Size(z.right)) <= 2 * b - 1 &&
            Size(z.right) == Size(s.left.right) + 1 + Size(s.right)
  {
    var z := RotatedLeft(s);
    LessAndMore(x, s);
    BitsGrow(More(x, s), Size(s));
    BitsGrow(Size(z.right), Size(s));
    BitsGrow(Size(z.left), Size(s.left));
    BitsPositive(Size(s));
    PartsAreShorter(Size(z.left), Size(z.right), Size(s));
  }

  /** The mirror passes. */
  lemma PassRight<N>(x: int, l: Spine<N>, s: Shape<N>, r: Spine<N>, passes: int, debt: Debt, budget: int)
    returns (debt': Debt)
    requires s.Branch? && x > s.key && Sorted(InOrder(s)) && Paid(x, l, s, r, passes, debt, budget)
    ensures var z := ZiggedRight(x, s);
            if z.right.Leaf? then passes + 1 + 2 * PiecesPotential(x, l, z, r) <= budget
            else Paid(x, Link(l, z.left, z.node, z.key), z.right, r, passes + 1, debt', budget)
  {
    debt' := Free;
    BitsPositive(Size(s));
    if ZiggedRight(x, s) != s {
      DoubleRight(x, l, s, r, passes, budget);
    } else if s.right.Branch? {
      debt' := SingleRight(x, l, s, r, passes, debt, budget);
    }
  }

  lemma SingleRight<N>(x: int, l: Spine<N>, s: Shape<N>, r: Spine<N>, passes: int, debt: Debt, budget: int)
    returns (debt': Debt)
    requires s.Branch? && s.right.Branch? && s.key < x <= s.right.key && Sorted(InOrder(s))
    requires Paid(x, l, s, r, passes, debt, budget)
    ensures Paid(x, Link(l, s.left, s.node, s.key), s.right, r, passes + 1, debt', budget)
  {
    LinkedLeft(x, l, s, r);
    LeftOfRoot(x, s);
    LessAndMore(x, s);
    PartsAreShorter(More(x, s), Less(x, s), Size(s));
    BitsGrow(Size(s.right), Size(s));
    SinglePass(passes, PiecesPotential(x, l, s, r), PiecesPotential(x, Link(l, s.left, s.node, s.key), s.right, r),
               Bits(Size(s)), Bits(Size(s.right)), Bits(Less(x, s)), Bits(More(x, s)), budget);
    debt' := if debt.Free? then AfterLeft else Free;
  }

  lemma DoubleRight<N>(x: int, l: Spine<N>, s: Shape<N>, r: Spine<N>, passes: int, budget: int)
    requires s.Branch? && s.right.Branch? && x > s.right.key && x > s.key && Sorted(InOrder(s))
    requires PaidToward(passes, PiecesPotential(x, l, s, r), Bits(Size(s)), Bits(Less(x, s)), budget)
    ensures var z := RotatedRight(s);
            if z.right.Leaf? then passes + 1 + 2 * PiecesPotential(x, l, z, r) <= budget
            else Paid(x, Link(l, z.left, z.node, z.key), z.right, r, passes + 1, Free, budget)
  {
    var z := RotatedRight(s);
    RotatedRightCosts(x, l, s, r);
    DoubleRightBits(x, s);
    if z.right.Branch? {
      LinkedLeft(x, l, z, r);
      DoublePass(passes, PiecesPotential(x, l, s, r), PiecesPotential(x, Link(l, z.left, z.node, z.key), z.right, r),
                 Bits(Size(s)), Bits(Size(z.right)), Bits(Size(s.right)), Bits(Size(z.left)), Bits(Less(x, s)), budget);
    }
  }

  lemma DoubleRightBits<N>(x: int, s: Shape<N>)
    requires s.Branch? && s.right.Branch?
    ensures var z := RotatedRight(s);
            var b := Bits(Size(s));
            b >= 1 && Bits(Less(x, s)) <= b && Bits(Size(z.left)) <= b && Bits(Size(z.right)) <= Bits(Size(s.right)) &&
            Bits(Size(z.left)) + Bits(Size(z.right)) <= 2 * b - 1 &&
            Size(z.left) == Size(s.left) + 1 + Size(s.right.left)
  {
    var z := RotatedRight(s);
    LessAndMore(x, s);
    BitsGrow(Less(x, s), Size(s));
    BitsGrow(Size(z.left), Size(s));
    BitsGrow(Size(z.right), Size(s.right));
    BitsPositive(Size(s));
    PartsAreShorter(Size(z.left), Size(z.right), Size(s));
  }

  // ---------- The whole splay ----------

  /** The tree put together around the root of s. */
  ghost function Whole<N>(l: Spine<N>, s: Shape<N>, r: Spine<N>): Shape<N>
    requires s.Branch?
  {
    Branch(ClosedLeft(l, s.left), s.node, s.key, ClosedRight(r, s.right))
  }

  /** What the loop, and putting the pieces together after it, make of them. */
  ghost function SplayFrom<N>(x: int, l: Spine<N>, s: Shape<N>, r: Spine<N>): Shape<N>
    requires s.Branch?
    decreases Size(s)
  {
    ZiggedSizes(x, s);
    if x < s.key then
      var z := ZiggedLeft(x, s);
      if z.left.Leaf? then Whole(l, z, r) else SplayFrom(x, l, z.left, Link(r, z.right, z.node, z.key))
    else if x > s.key then
      var z := ZiggedRight(x, s);
      if z.right.Leaf? then Whole(l, z, r) else SplayFrom(x, Link(l, z.left, z.node, z.key), z.right, r)
    else
      Whole(l, s, r)
  }

  /** The tree that splaying at x leaves. */
  ghost function AfterSplay<N>(x: int, s: Shape<N>): Shape<N> {
    if s.Leaf? then Leaf else SplayFrom(x, End, s, End)
  }

  /** Once x parts the middle tree, putting the pieces together adds at most the bits of the whole. */
  lemma WholeCosts<N>(x: int, l: Spine<N>, s: Shape<N>, r: Spine<N>)
    requires s.Branch? && Parted(x, s)
    ensures Size(Whole(l, s, r)) == SpineSize(l) + Size(s) + SpineSize(r)
    ensures Potential(Whole(l, s, r)) <= PiecesPotential(x, l, s, r) + Bits(Size(Whole(l, s, r)))
  {
    ClosedCosts(l, s.left);
    ClosedCosts(r, s.right);
    SidesOfParted(x, s);
    SpineGrows(l, Size(s.left), Less(x, s));
    SpineGrows(r, Size(s.right), More(x, s));
    assert Potential(s.left) + Potential(s.right) <= Potential(s);
  }

  lemma SidesOfParted<N>(x: int, s: Shape<N>)
    requires s.Branch? && Parted(x, s)
    ensures Size(s.left) <= Less(x, s) && Size(s.right) <= More(x, s)
  {
    AllLess(x, s.left);
    AllMore(x, s.right);
  }

  ghost function Budget<N>(s: Shape<N>): int {
    2 * Potential(s) + 4 * Bits(Size(s))
  }

  // How far down the first and the last key are.

  ghost function LeftDepth<N>(s: Shape<N>): nat {
    if s.Leaf? then 0 else 1 + LeftDepth(s.left)
  }

  ghost function RightDepth<N>(s: Shape<N>): nat {
    if s.Leaf? then 0 else 1 + RightDepth(s.right)
  }

  ghost predicate NoneBelow<N>(x: int, s: Shape<N>) {
    forall y :: y in InOrder(s) ==> x <= y
  }

  ghost predicate NoneAbove<N>(x: int, s: Shape<N>) {
    forall y :: y in InOrder(s) ==> y <= x
  }

  /** The passes have gone down what is missing of the way to the first or the last key, if that is where x is
      sought. */
  ghost predicate Reached<N>(x: int, s0: Shape<N>, left: nat, right: nat, passes: int) {
    (NoneBelow(x, s0) ==> LeftDepth(s0) <= left + 2 * passes) &&
    (NoneAbove(x, s0) ==> RightDepth(s0) <= right + 2 * passes)
  }

  /** The loop on the tree s0 after so many passes. */
  ghost predicate Splaying<N>(x: int, s0: Shape<N>, l: Spine<N>, s: Shape<N>, r: Spine<N>, passes: int, debt: Debt) {
    s.Branch? && CutOf(x, s0, l, s, r) && SpineSize(l) + Size(s) + SpineSize(r) == Size(s0) &&
    Paid(x, l, s, r, passes, debt, Budget(s0)) && Reached(x, s0, LeftDepth(s), RightDepth(s), passes) &&
    passes + SplayPasses(x, s) == SplayPasses(x, s0) && SplayFrom(x, l, s, r) == AfterSplay(x, s0)
  }

  /** After its last pass. */
  ghost predicate Splayed<N>(x: int, s0: Shape<N>, l: Spine<N>, s: Shape<N>, r: Spine<N>, passes: int) {
    s.Branch? && CutOf(x, s0, l, s, r) && SpineSize(l) + Size(s) + SpineSize(r) == Size(s0) && Parted(x, s) &&
    passes + 2 * PiecesPotential(x, l, s, r) <= Budget(s0) && Reached(x, s0, 0, 0, passes) &&
    passes == SplayPasses(x, s0) && Whole(l, s, r) == AfterSplay(x, s0)
  }

  lemma SplayStart<N>(x: int, s: Shape<N>)
    requires s.Branch? && Sorted(InOrder(s))
    ensures Splaying(x, s, End, s, End, 0, Free)
  {
    assert [] + InOrder(s) + [] == InOrder(s);
  }

  /** A pass at a root that holds x. */
  lemma SplayHere<N>(x: int, s0: Shape<N>, l: Spine<N>, s: Shape<N>, r: Spine<N>, passes: int, debt: Debt)
    requires Splaying(x, s0, l, s, r, passes, debt) && x == s.key
    ensures Splayed(x, s0, l, s, r, passes + 1)
  {
    BitsPositive(Size(s));
    SortedParts(InOrder(s.left), s.key, InOrder(s.right));
    EndsAtRoot(x, s0, l, s, r);
  }

  /** A first or last key at the root has nothing on its far side. */
  lemma EndsAtRoot<N>(x: int, s0: Shape<N>, l: Spine<N>, s: Shape<N>, r: Spine<N>)
    requires CutOf(x, s0, l, s, r) && s.Branch? && s.key == x
    ensures NoneBelow(x, s0) ==> LeftDepth(s) == 1
    ensures NoneAbove(x, s0) ==> RightDepth(s) == 1
  {
    SortedParts(InOrder(s.left), s.key, InOrder(s.right));
    MiddleListed(x, s0, l, s, r);
    if s.left.Branch? {
      assert s.left.key in InOrder(s.left) && s.left.key in InOrder(s);
    }
    if s.right.Branch? {
      assert s.right.key in InOrder(s.right) && s.right.key in InOrder(s);
    }
  }

  lemma MiddleListed<N>(x: int, s0: Shape<N>, l: Spine<N>, s: Shape<N>, r: Spine<N>)
    requires CutOf(x, s0, l, s, r)
    ensures forall y :: y in InOrder(s) ==> y in InOrder(s0)
  {}

  /** A pass to the left. */
  lemma SplayLeft<N>(x: int, s0: Shape<N>, l: Spine<N>, s: Shape<N>, r: Spine<N>, passes: int, debt: Debt)
    returns (debt': Debt)
    requires Splaying(x, s0, l, s, r, passes, debt) && x < s.key
    ensures var z := ZiggedLeft(x, s);
            if z.left.Leaf? then Splayed(x, s0, l, z, r, passes + 1)
            else Splaying(x, s0, l, z.left, Link(r, z.right, z.node, z.key), passes + 1, debt')
  {
    var z := ZiggedLeft(x, s);
    debt' := PassLeft(x, l, s, r, passes, debt, Budget(s0));
    ZiggedLeftKeeps(x, s0, l, s, r);
    GoLeft(x, s0, l, z, r);
    NotBoth(x, s0, l, s, r);
  }

  lemma ZiggedLeftKeeps<N>(x: int, s0: Shape<N>, l: Spine<N>, s: Shape<N>, r: Spine<N>)
    requires CutOf(x, s0, l, s, r) && s.Branch? && x < s.key
    ensures var z := ZiggedLeft(x, s);
            CutOf(x, s0, l, z, r) && x < z.key && Size(z) == Size(s) && LeftDepth(s) <= LeftDepth(z.left) + 2
  {
    if s.left.Branch? && x < s.left.key {
      RotatedLeftCosts(x, l, s, r);
    }
  }

  /** Where a root above x is, x is not the greatest. */
  lemma NotBoth<N>(x: int, s0: Shape<N>, l: Spine<N>, s: Shape<N>, r: Spine<N>)
    requires CutOf(x, s0, l, s, r) && s.Branch?
    ensures x < s.key ==> !NoneAbove(x, s0)
    ensures x > s.key ==> !NoneBelow(x, s0)
  {
    MiddleListed(x, s0, l, s, r);
    assert s.key in InOrder(s);
  }

  /** A pass to the right. */
  lemma SplayRight<N>(x: int, s0: Shape<N>, l: Spine<N>, s: Shape<N>, r: Spine<N>, passes: int, debt: Debt)
    returns (debt': Debt)
    requires Splaying(x, s0, l, s, r, passes, debt) && x > s.key
    ensures var z := ZiggedRight(x, s);
            if z.right.Leaf? then Splayed(x, s0, l, z, r, passes + 1)
            else Splaying(x, s0, Link(l, z.left, z.node, z.key), z.right, r, passes + 1, debt')
  {
    var z := ZiggedRight(x, s);
    debt' := PassRight(x, l, s, r, passes, debt, Budget(s0));
    ZiggedRightKeeps(x, s0, l, s, r);
    GoRight(x, s0, l, z, r);
    NotBoth(x, s0, l, s, r);
  }

  lemma ZiggedRightKeeps<N>(x: int, s0: Shape<N>, l: Spine<N>, s: Shape<N>, r: Spine<N>)
    requires CutOf(x, s0, l, s, r) && s.Branch? && x > s.key
    ensures var z := ZiggedRight(x, s);
            CutOf(x, s0, l, z, r) && x > z.key && Size(z) == Size(s) && RightDepth(s) <= RightDepth(z.right) + 2
  {
    if s.right.Branch? && x > s.right.key {
      RotatedRightCosts(x, l, s, r);
    }
  }

  /** What a splay of s0 into s costs: its passes, after what the potential gives or takes, are at most 6 times the
      bits. */
  ghost predicate Amortized<N>(s0: Shape<N>, s: Shape<N>, passes: int) {
    Size(s) == Size(s0) && passes + 2 * Potential(s) <= 2 * Potential(s0) + 6 * Bits(Size(s0)) + 1
  }

  lemma SplayEnd<N>(x: int, s0: Shape<N>, l: Spine<N>, s: Shape<N>, r: Spine<N>, passes: int)
    requires Splayed(x, s0, l, s, r, passes)
    ensures Amortized(s0, Whole(l, s, r), passes)
  {
    WholeCosts(x, l, s, r);
  }

  // ---------- The operations ----------

  /** The passes of the second splay of a removal, which finds x at the root and joins the subtrees. */
  ghost function JoinPasses<N>(x: int, s: Shape<N>): nat {
    if s.Branch? && s.key == x && s.left.Branch? then SplayPasses(x, s.left) else 0
  }

  /** What an operation on the tree s costs: the passes of its splays, and the steps of the walk before. */
  ghost predicate Charged<N>(s: Shape<N>, op: Op, cost: int) {
    match op
    case InsertOp(x) => cost == if s.Leaf? then 0 else SplayPasses(x, s)
    case RemoveOp(x) => cost == SplayPasses(x, s) + JoinPasses(x, AfterSplay(x, s))
    case FindOp(x) => cost == SplayPasses(x, s)
    case FindMinOp => if InOrder(s) == [] then cost == 0 else cost + 1 == SplayPasses(InOrder(s)[0], s) + LeftDepth(s)
    case FindMaxOp =>
      if InOrder(s) == [] then cost == 0 else cost + 1 == SplayPasses(InOrder(s)[|InOrder(s)| - 1], s) + RightDepth(s)
    case MakeEmptyOp => cost == 0
  }

  /** u is s with x as its root: in a new node, between the old root and one of its subtrees, unless it is there. */
  ghost predicate Topped<N>(x: int, s: Shape<N>, u: Shape<N>) {
    u.Branch? &&
    if s.Leaf? then u == Branch(Leaf, u.node, x, Leaf)
    else if x == s.key then u == s
    else if x < s.key then u == Branch(s.left, u.node, x, Branch(Leaf, s.node, s.key, s.right))
    else u == Branch(Branch(s.left, s.node, s.key, Leaf), u.node, x, s.right)
  }

  /** u is s without its root if that holds x: the right subtree, hung on what a splay at x makes of the left one. */
  ghost predicate Untopped<N>(x: int, s: Shape<N>, u: Shape<N>) {
    if s.Leaf? || s.key != x then u == s
    else if s.left.Leaf? then u == s.right
    else var a := AfterSplay(x, s.left); a.Branch? && u == Branch(a.left, a.node, a.key, s.right)
  }

  /** The tree u that an operation leaves of s; only a new node is any node. */
  ghost predicate Leaves<N>(s: Shape<N>, op: Op, u: Shape<N>) {
    var keys := InOrder(s);
    match op
    case InsertOp(x) => Topped(x, AfterSplay(x, s), u)
    case RemoveOp(x) => Untopped(x, AfterSplay(x, s), u)
    case FindOp(x) => u == AfterSplay(x, s)
    case FindMinOp => u == if keys == [] then s else AfterSplay(keys[0], s)
    case FindMaxOp => u == if keys == [] then s else AfterSplay(keys[|keys| - 1], s)
    case MakeEmptyOp => u == Leaf
  }

  /** The operation takes s to u at this cost. */
  ghost predicate Did<N>(s: Shape<N>, op: Op, u: Shape<N>, cost: int) {
    Leaves(s, op, u) && Charged(s, op, cost)
  }

  /** What an operation that takes the tree s0 to s may cost. */
  ghost predicate Affordable<N>(s0: Shape<N>, s: Shape<N>, cost: int) {
    cost >= 0 && Size(s) <= Size(s0) + 1 && cost + 6 * Potential(s) <= 6 * Potential(s0) + Charge(Size(s0) + 1)
  }

  ghost function Charge(n: nat): int {
    36 * Bits(n) + 6
  }

  lemma ChargeGrows(m: nat, n: nat)
    requires m <= n
    ensures Charge(m) <= Charge(n)
  {
    BitsGrow(m, n);
  }

  /** A splay alone, and one after a walk down to the first or the last key. */
  lemma SplayAffordable<N>(s0: Shape<N>, s: Shape<N>, passes: nat, walk: nat)
    requires Amortized(s0, s, passes) && walk <= 2 * passes
    ensures Affordable(s0, s, passes + walk)
  {
    BitsGrow(Size(s0), Size(s0) + 1);
  }

  /** A splay, and a new root above it. */
  lemma InsertAffordable<N>(x: int, s0: Shape<N>, s: Shape<N>, passes: nat, u: Shape<N>)
    requires Amortized(s0, s, passes) && s.Branch? && Topped(x, s, u)
    ensures Affordable(s0, u, passes)
  {
    if x == s.key {
      SplayAffordable(s0, s, passes, 0);
    } else {
      RootAffordable(s0, s, passes, u);
    }
  }

  lemma RootAffordable<N>(s0: Shape<N>, s: Shape<N>, passes: nat, u: Shape<N>)
    requires Amortized(s0, s, passes) && RootAbove(s, u)
    ensures Affordable(s0, u, passes)
  {
    var n := Size(s0);
    RootInserted(s, u);
    BitsGrow(n, n + 1);
    assert Size(u) == n + 1 && Potential(u) <= Potential(s) + Bits(n + 1);
    SplayAndRoot(passes, Potential(s0), Potential(s), Potential(u), Bits(n), Bits(n + 1));
  }

  lemma SplayAndRoot(passes: nat, p0: int, p: int, u: int, b: int, b': int)
    requires passes + 2 * p <= 2 * p0 + 6 * b + 1 && u <= p + b' && 0 <= b <= b'
    ensures passes + 6 * u <= 6 * p0 + 36 * b' + 6
  {}

  /** u is s with a new node as its root, between the old root and one of its subtrees. */
  ghost predicate RootAbove<N>(s: Shape<N>, u: Shape<N>) {
    s.Branch? && u.Branch? &&
    ((u.left == s.left && u.right.Branch? && u.right.left.Leaf? && u.right.right == s.right) ||
     (u.right == s.right && u.left.Branch? && u.left.right.Leaf? && u.left.left == s.left))
  }

  lemma RootInserted<N>(s: Shape<N>, u: Shape<N>)
    requires RootAbove(s, u)
    ensures Size(u) == Size(s) + 1 && Potential(u) <= Potential(s) + Bits(Size(u))
  {
    UnfoldPotential(s);
    UnfoldPotential(u);
    if u.left == s.left && u.right.Branch? && u.right.left.Leaf? && u.right.right == s.right {
      UnfoldPotential(u.right);
      BitsGrow(Size(u.right), Size(s));
    } else {
      UnfoldPotential(u.left);
      BitsGrow(Size(u.left), Size(s));
    }
  }

  lemma UnfoldPotential<N>(s: Shape<N>)
    requires s.Branch?
    ensures Size(s) == Size(s.left) + 1 + Size(s.right)
    ensures Potential(s) == Potential(s.left) + Potential(s.right) + Bits(Size(s))
  {}

  /** A splay of the whole, a splay a of the left subtree of its root, and the right subtree hung on that. */
  lemma RemoveAffordable<N>(s0: Shape<N>, s: Shape<N>, passes: nat, a: Shape<N>, again: nat, u: Shape<N>)
    requires Amortized(s0, s, passes) && s.Branch?
    requires if s.left.Leaf? then u == s.right && again == 0
             else Amortized(s.left, a, again) && a.Branch? && a.right.Leaf? &&
                  u == Branch(a.left, a.node, a.key, s.right)
    ensures Affordable(s0, u, passes + again)
  {
    if s.left.Leaf? {
      var n := Size(s0);
      BitsGrow(n, n + 1);
      UnfoldPotential(s);
      OneSubtree(passes, Potential(s0), Potential(u), Bits(n), Bits(n + 1));
    } else {
      JoinAffordable(s0, s, passes, a, again, u);
    }
  }

  lemma JoinAffordable<N>(s0: Shape<N>, s: Shape<N>, passes: nat, a: Shape<N>, again: nat, u: Shape<N>)
    requires Amortized(s0, s, passes) && s.Branch? && Amortized(s.left, a, again) && a.Branch? && a.right.Leaf?
    requires u == Branch(a.left, a.node, a.key, s.right)
    ensures Affordable(s0, u, passes + again)
  {
    var n := Size(s0);
    BitsGrow(n, n + 1);
    UnfoldPotential(s);
    RootJoined(s, a, u);
    BitsGrow(Size(s.left), n);
    BitsGrow(Size(u), n);
    TwoSplays(passes, again, Potential(s0), Potential(s.left), Potential(s.right), Potential(a), Potential(u),
              Bits(n), Bits(n + 1));
  }

  /** The tree s without its root, which holds x: u, made with a, the left subtree after a splay of that many passes. */
  ghost predicate Dropped<N>(x: int, s: Shape<N>, a: Shape<N>, again: int, u: Shape<N>) {
    again == JoinPasses(x, s) &&
    if s.Leaf? then u.Leaf?
    else if s.left.Leaf? then u == s.right
    else
      Amortized(s.left, a, again) && a.Branch? && a.right.Leaf? && a == AfterSplay(x, s.left) &&
      u == Branch(a.left, a.node, a.key, s.right)
  }

  lemma DropAffordable<N>(x: int, s0: Shape<N>, s: Shape<N>, passes: nat, a: Shape<N>, again: nat, u: Shape<N>)
    requires Amortized(s0, s, passes) && Dropped(x, s, a, again, u) && (s.Branch? ==> s.key == x)
    ensures Affordable(s0, u, passes + again)
  {
    if s.Leaf? {
      SplayAffordable(s0, s, passes, 0);
    } else {
      RemoveAffordable(s0, s, passes, a, again, u);
    }
  }

  lemma RootJoined<N>(s: Shape<N>, a: Shape<N>, u: Shape<N>)
    requires s.Branch? && a.Branch? && a.right.Leaf? && u == Branch(a.left, a.node, a.key, s.right)
    ensures Size(u) == Size(a) + Size(s.right) && Potential(u) <= Potential(a) + Potential(s.right) + Bits(Size(u))
  {
    UnfoldPotential(a);
    UnfoldPotential(u);
  }

  lemma OneSubtree(passes: nat, p0: int, u: int, b: int, b': int)
    requires passes + 2 * (u + b) <= 2 * p0 + 6 * b + 1 && 0 <= b <= b'
    ensures passes + 6 * u <= 6 * p0 + 36 * b' + 6
  {}

  lemma TwoSplays(passes: nat, again: nat, p0: int, left: int, right: int, a: int, u: int, b: int, b': int)
    requires passes + 2 * (left + right + b) <= 2 * p0 + 6 * b + 1 && again + 2 * a <= 2 * left + 6 * b + 1
    requires u <= a + right + b && 0 <= b <= b'
    ensures passes + again + 6 * u <= 6 * p0 + 36 * b' + 6
  {}

  // ---------- Runs ----------

  ghost function Total(costs: seq<int>): int {
    if costs == [] then 0 else Total(costs[..|costs| - 1]) + costs[|costs| - 1]
  }

  lemma TotalMore(costs: seq<int>, cost: int)
    ensures Total(costs + [cost]) == Total(costs) + cost
  {
    assert (costs + [cost])[..|costs|] == costs;
  }

  /** After i of m operations, which began with the tree first. */
  ghost predicate Spent<N>(first: Shape<N>, s: Shape<N>, cost: int, i: nat, m: nat) {
    Size(s) <= Size(first) + i && cost + 6 * Potential(s) <= Allowed(first, i, m)
  }

  /** What i of m operations may cost: a charge each for the largest size the m can lead to, and what the potential of
      the first tree has stored up. */
  ghost function Allowed<N>(first: Shape<N>, i: nat, m: nat): int {
    6 * Potential(first) + i * Charge(Size(first) + m)
  }

  lemma SpentMore<N>(first: Shape<N>, s: Shape<N>, cost: int, i: nat, m: nat, s': Shape<N>, more: int)
    requires Spent(first, s, cost, i, m) && i < m && Affordable(s, s', more)
    ensures Spent(first, s', cost + more, i + 1, m)
  {
    ChargeGrows(Size(s) + 1, Size(first) + m);
    NextMultiple(i, Charge(Size(first) + m));
  }

  lemma SpentNothing<N>(first: Shape<N>, m: nat)
    ensures Spent(first, first, 0, 0, m)
  {}

  /** What a run of m operations may cost, in the size n that it can reach: of the order of the bits of n for each
      operation and for each key at the start. */
  lemma RunBound<N>(first: Shape<N>, m: nat)
    ensures var b := Bits(Size(first) + m);
            Allowed(first, m, m) <= 6 * (Size(first) * b) + m * (36 * b + 6)
  {
    var n := Size(first) + m;
    PotentialBounded(first);
    BitsGrow(Size(first), n);
    ProductGrows(Size(first), Bits(Size(first)), Bits(n));
  }

  lemma {:induction false} PotentialBounded<N>(s: Shape<N>)
    ensures Potential(s) <= Size(s) * Bits(Size(s))
  {
    if s.Branch? {
      var l, r, b := Size(s.left), Size(s.right), Bits(Size(s));
      UnfoldPotential(s);
      PotentialBounded(s.left);
      PotentialBounded(s.right);
      BitsGrow(l, Size(s));
      BitsGrow(r, Size(s));
      ProductGrows(l, Bits(l), b);
      ProductGrows(r, Bits(r), b);
      ThreeProducts(l, r, b);
    }
  }

  lemma ThreeProducts(l: int, r: int, b: int)
    ensures (l + 1 + r) * b == l * b + r * b + b
  {}

  lemma ProductGrows(m: nat, a: nat, b: nat)
    requires a <= b
    ensures m * a <= m * b
  {}

  lemma NextMultiple(i: int, c: int)
    ensures (i + 1) * c == i * c + c
  {}
}
