/** Binary trees over node numbers: the shape that build_tree leaves behind in
    its father links. Leaves are symbols, inner nodes are numbered from `elems`. */
module HuffmanTree {
  import opened Arith

  datatype HTree = Leaf(id: nat) | Node(id: nat, left: HTree, right: HTree)

  function Ids(t: HTree): set<nat>
  {
    match t
    case Leaf(id) => {id}
    case Node(id, l, r) => {id} + Ids(l) + Ids(r)
  }

  function Leaves(t: HTree): set<nat>
  {
    match t
    case Leaf(id) => {id}
    case Node(_, l, r) => Leaves(l) + Leaves(r)
  }

  predicate WellFormed(t: HTree)
  {
    match t
    case Leaf(_) => true
    case Node(id, l, r) =>
      WellFormed(l) && WellFormed(r) && Ids(l) !! Ids(r) && id !in Ids(l) && id !in Ids(r)
  }

  predicate Numbered(t: HTree, elems: nat)
  {
    match t
    case Leaf(id) => id < elems
    case Node(id, l, r) => id >= elems && Numbered(l, elems) && Numbered(r, elems)
  }

  // Depth of node `x`, when the root of `t` is at depth `d`.
  function Depth(t: HTree, d: nat, x: nat): nat
  {
    if t.id == x || t.Leaf? then d
    else if x in Ids(t.left) then Depth(t.left, d + 1, x)
    else Depth(t.right, d + 1, x)
  }

  // Father of node `x`, which is not the root.
  function Dad(t: HTree, x: nat): nat
  {
    if t.Leaf? || t.left.id == x || t.right.id == x then t.id
    else if x in Ids(t.left) then Dad(t.left, x)
    else Dad(t.right, x)
  }

  lemma RootIn(t: HTree)
    ensures t.id in Ids(t)
  {
  }

  lemma {:induction false} LeavesAreSmall(t: HTree, elems: nat)
    requires Numbered(t, elems)
    ensures forall x :: x in Leaves(t) <==> x in Ids(t) && x < elems
  {
    match t
    case Leaf(_) =>
    case Node(_, l, r) =>
      LeavesAreSmall(l, elems);
      LeavesAreSmall(r, elems);
  }

  lemma {:induction false} LeavesInIds(t: HTree)
    ensures Leaves(t) <= Ids(t)
  {
    match t
    case Leaf(_) =>
    case Node(_, l, r) =>
      LeavesInIds(l);
      LeavesInIds(r);
  }

  // A node is one level below its father.
  lemma {:induction false} DadDepth(t: HTree, d: nat, x: nat)
    requires WellFormed(t) && x in Ids(t) && x != t.id
    ensures Dad(t, x) in Ids(t)
    ensures Depth(t, d, x) == Depth(t, d, Dad(t, x)) + 1
  {
    RootIn(t.left);
    RootIn(t.right);
    if x == t.left.id || x == t.right.id {
    } else if x in Ids(t.left) {
      DadDepth(t.left, d + 1, x);
    } else {
      DadDepth(t.right, d + 1, x);
    }
  }

  lemma {:induction false} DepthAtLeast(t: HTree, d: nat, x: nat)
    requires x in Ids(t)
    ensures Depth(t, d, x) >= d
    ensures x != t.id ==> Depth(t, d, x) > d
  {
    if x != t.id {
      if x in Ids(t.left) {
        DepthAtLeast(t.left, d + 1, x);
      } else {
        DepthAtLeast(t.right, d + 1, x);
      }
    }
  }

  // ---------- sums over the leaves and over all nodes ----------

  ghost function LeafSum(t: HTree, d: nat, g: (nat, nat) -> int): int
  {
    match t
    case Leaf(id) => g(id, d)
    case Node(_, l, r) => LeafSum(l, d + 1, g) + LeafSum(r, d + 1, g)
  }

  ghost function NodeSum(t: HTree, d: nat, g: (nat, nat) -> int): int
  {
    match t
    case Leaf(id) => g(id, d)
    case Node(id, l, r) => g(id, d) + NodeSum(l, d + 1, g) + NodeSum(r, d + 1, g)
  }

  ghost function AtDepth(t: HTree, d: nat, g: (nat, nat) -> int): nat -> int
  {
    (x: nat) => g(x, Depth(t, d, x))
  }

  lemma SubtreeDepths(t: HTree, d: nat, g: (nat, nat) -> int)
    requires WellFormed(t) && t.Node?
    ensures forall x :: x in Ids(t.left) ==> AtDepth(t, d, g)(x) == AtDepth(t.left, d + 1, g)(x)
    ensures forall x :: x in Ids(t.right) ==> AtDepth(t, d, g)(x) == AtDepth(t.right, d + 1, g)(x)
  {
    forall x | x in Ids(t.left)
      ensures AtDepth(t, d, g)(x) == AtDepth(t.left, d + 1, g)(x)
    {
      assert Depth(t, d, x) == Depth(t.left, d + 1, x);
    }
    forall x | x in Ids(t.right)
      ensures AtDepth(t, d, g)(x) == AtDepth(t.right, d + 1, g)(x)
    {
      assert Depth(t, d, x) == Depth(t.right, d + 1, x);
    }
  }

  lemma SumSetSingle(x: nat, g: nat -> int)
    ensures SumSet({x}, g) == g(x)
  {
    SumSetAdd({}, x, g);
    assert {} + {x} == {x};
  }

  lemma {:induction false} LeafSumIsSumSet(t: HTree, d: nat, g: (nat, nat) -> int)
    requires WellFormed(t)
    ensures LeafSum(t, d, g) == SumSet(Leaves(t), AtDepth(t, d, g))
  {
    hide SumSet;
    match t
    case Leaf(id) =>
      SumSetSingle(id, AtDepth(t, d, g));
      assert Depth(t, d, id) == d;
    case Node(_, l, r) =>
      LeafSumIsSumSet(l, d + 1, g);
      LeafSumIsSumSet(r, d + 1, g);
      LeavesInIds(l);
      LeavesInIds(r);
      SubtreeDepths(t, d, g);
      SumSetUnion(Leaves(l), Leaves(r), AtDepth(t, d, g));
      SumSetCongruent(Leaves(l), AtDepth(t, d, g), AtDepth(l, d + 1, g));
      SumSetCongruent(Leaves(r), AtDepth(t, d, g), AtDepth(r, d + 1, g));
  }

  lemma {:induction false} NodeSumIsSumSet(t: HTree, d: nat, g: (nat, nat) -> int)
    requires WellFormed(t)
    ensures NodeSum(t, d, g) == SumSet(Ids(t), AtDepth(t, d, g))
  {
    hide SumSet;
    var h := AtDepth(t, d, g);
    assert h(t.id) == g(t.id, d) by { assert Depth(t, d, t.id) == d; }
    match t
    case Leaf(id) =>
      SumSetSingle(id, h);
    case Node(id, l, r) =>
      NodeSumIsSumSet(l, d + 1, g);
      NodeSumIsSumSet(r, d + 1, g);
      SubtreeDepths(t, d, g);
      SumSetUnion(Ids(l), Ids(r), h);
      SumSetCongruent(Ids(l), h, AtDepth(l, d + 1, g));
      SumSetCongruent(Ids(r), h, AtDepth(r, d + 1, g));
      SumSetAdd(Ids(l) + Ids(r), id, h);
      assert Ids(l) + Ids(r) + {id} == Ids(t);
  }

  // ---------- clamping at a maximal length ----------

  function Min(a: nat, b: nat): nat
  {
    if a < b then a else b
  }

  // Weight 2^-depth of a leaf in units of 2^-top, after clamping.
  function LeafWeight(top: nat): (nat, nat) -> int
  {
    (x: nat, d: nat) => Pow2(top - Min(d, top))
  }

  function TooDeep(top: nat): (nat, nat) -> int
  {
    (x: nat, d: nat) => if d > top then 1 else 0
  }

  function AtLength(top: nat): (nat, nat) -> int
  {
    (x: nat, d: nat) => if d >= top then 1 else 0
  }

  // Inner nodes at depth `top` or below.
  function Excess(t: HTree, d: nat, top: nat): nat
  {
    match t
    case Leaf(_) => 0
    case Node(_, l, r) => (if d >= top then 1 else 0) + Excess(l, d + 1, top) + Excess(r, d + 1, top)
  }

  // Clamping oversubscribes the code space by exactly the excess.
  lemma {:induction false} ClampedKraft(t: HTree, d: nat, top: nat)
    ensures LeafSum(t, d, LeafWeight(top)) == Pow2(top - Min(d, top)) + Excess(t, d, top)
  {
    match t
    case Leaf(_) =>
    case Node(_, l, r) =>
      ClampedKraft(l, d + 1, top);
      ClampedKraft(r, d + 1, top);
  }

  // The clamped nodes are exactly the sons of the excess nodes.
  lemma {:induction false} ClampedCount(t: HTree, d: nat, top: nat)
    ensures NodeSum(t, d, TooDeep(top)) == 2 * Excess(t, d, top) + (if d > top then 1 else 0)
  {
    match t
    case Leaf(_) =>
    case Node(_, l, r) =>
      ClampedCount(l, d + 1, top);
      ClampedCount(r, d + 1, top);
  }

  // More leaves end up at the maximal length than there is excess.
  lemma {:induction false} ClampedLeaves(t: HTree, d: nat, top: nat)
    ensures LeafSum(t, d, AtLength(top)) >= Excess(t, d, top)
    ensures Excess(t, d, top) > 0 || d >= top ==> LeafSum(t, d, AtLength(top)) > Excess(t, d, top)
  {
    match t
    case Leaf(_) =>
    case Node(_, l, r) =>
      ClampedLeaves(l, d + 1, top);
      ClampedLeaves(r, d + 1, top);
  }

  function Max(a: nat, b: nat): nat
  {
    if a >= b then a else b
  }

  function Height(t: HTree): nat
  {
    match t
    case Leaf(_) => 0
    case Node(_, l, r) => 1 + Max(Height(l), Height(r))
  }

  // There is an excess if and only if the tree is too high.
  lemma {:induction false} ExcessMeansHigh(t: HTree, d: nat, top: nat)
    ensures Excess(t, d, top) > 0 <==> t.Node? && d + Height(t) > top
  {
    match t
    case Leaf(_) =>
    case Node(_, l, r) =>
      ExcessMeansHigh(l, d + 1, top);
      ExcessMeansHigh(r, d + 1, top);
  }

  // The height is the depth of the deepest leaf.
  lemma {:induction false} DeepestLeaf(t: HTree, d: nat) returns (x: nat)
    requires WellFormed(t)
    ensures x in Leaves(t) && Depth(t, d, x) == d + Height(t)
    ensures forall y :: y in Leaves(t) ==> Depth(t, d, y) <= d + Height(t)
  {
    match t
    case Leaf(id) => x := id;
    case Node(id, l, r) =>
      var a := DeepestLeaf(l, d + 1);
      var b := DeepestLeaf(r, d + 1);
      LeavesInIds(l);
      LeavesInIds(r);
      x := if Height(l) >= Height(r) then a else b;
      forall y | y in Leaves(t)
        ensures Depth(t, d, y) <= d + Height(t)
      {
        assert y in Leaves(l) || y in Leaves(r);
      }
  }

  // ---------- weights ----------

  function Weight(t: HTree, f: nat -> nat): nat
  {
    match t
    case Leaf(id) => f(id)
    case Node(_, l, r) => Weight(l, f) + Weight(r, f)
  }

  // Total of frequency times depth.
  function Cost(t: HTree, f: nat -> nat): nat
  {
    match t
    case Leaf(_) => 0
    case Node(_, l, r) => Cost(l, f) + Cost(r, f) + Weight(l, f) + Weight(r, f)
  }

  ghost function Times(f: nat -> nat): (nat, nat) -> int
  {
    (x: nat, d: nat) => f(x) * d
  }

  ghost function Just(f: nat -> nat): (nat, nat) -> int
  {
    (x: nat, d: nat) => f(x)
  }

  lemma Spread(d: nat, a: nat, b: nat)
    ensures (d + 1) * a + (d + 1) * b == d * (a + b) + a + b
  {
  }

  lemma {:induction false} CostIsLeafSum(t: HTree, d: nat, f: nat -> nat)
    ensures LeafSum(t, d, Times(f)) == Cost(t, f) + d * Weight(t, f)
    ensures LeafSum(t, d, Just(f)) == Weight(t, f)
  {
    match t
    case Leaf(_) =>
    case Node(_, l, r) =>
      CostIsLeafSum(l, d + 1, f);
      CostIsLeafSum(r, d + 1, f);
      Spread(d, Weight(l, f), Weight(r, f));
  }

  // ---------- how high a Huffman tree can get ----------

  function Fib(n: nat): nat
  {
    if n <= 1 then n else Fib(n - 1) + Fib(n - 2)
  }

  lemma {:induction false} FibMono(a: nat, b: nat)
    requires a <= b
    ensures Fib(a) <= Fib(b)
    decreases b - a
  {
    if a < b {
      FibMono(a, b - 1);
      assert Fib(b) >= Fib(b - 1) || b == 1;
    }
  }

  // `a` is at least as heavy as the sons of `b`.
  predicate Outweighs(a: HTree, b: HTree, f: nat -> nat)
  {
    b.Node? ==> Weight(a, f) >= Weight(b.left, f) && Weight(a, f) >= Weight(b.right, f)
  }

  // No node is heavier than the brother of its father, and every leaf has some
  // weight.
  predicate Grown(t: HTree, f: nat -> nat)
  {
    match t
    case Leaf(id) => f(id) >= 1
    case Node(_, l, r) => Grown(l, f) && Grown(r, f) && Outweighs(l, r, f) && Outweighs(r, l, f)
  }

  // A high tree is heavy.
  lemma {:induction false} HighIsHeavy(t: HTree, f: nat -> nat)
    requires Grown(t, f)
    ensures Weight(t, f) >= Fib(Height(t) + 2)
  {
    hide Fib, Outweighs;
    FirstFibs();
    if t.Node? {
      HighIsHeavy(t.left, f);
      HighIsHeavy(t.right, f);
      HeavyBrother(t.left, t.right, f);
      HeavyBrother(t.right, t.left, f);
      HigherOfTwo(Weight(t.left, f), Weight(t.right, f), Height(t.left), Height(t.right));
    }
  }

  lemma FirstFibs()
    ensures Fib(1) == 1 && Fib(2) == 1
  {
  }

  lemma HigherOfTwo(w: nat, v: nat, h: nat, k: nat)
    requires w >= Fib(h + 2) && w >= Fib(k + 1) && v >= Fib(k + 2) && v >= Fib(h + 1)
    ensures w + v >= Fib(Max(h, k) + 3)
  {
  }

  lemma {:induction false} HeavyBrother(a: HTree, b: HTree, f: nat -> nat)
    requires Grown(a, f) && Grown(b, f) && Outweighs(a, b, f)
    ensures Weight(a, f) >= Fib(Height(b) + 1)
    decreases b
  {
    hide Fib;
    FirstFibs();
    HasWeight(a, f);
    if b.Node? {
      HighIsHeavy(b.left, f);
      HighIsHeavy(b.right, f);
    }
  }

  lemma {:induction false} HasWeight(t: HTree, f: nat -> nat)
    requires Grown(t, f)
    ensures Weight(t, f) >= 1
  {
    if t.Node? {
      HasWeight(t.left, f);
    }
  }
}
