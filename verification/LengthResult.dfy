/** gen_bitlen as a whole. */
module LengthResult {
  import opened Arith
  import opened Codes
  import opened HuffmanTree
  import opened Optimal
  import opened Merging
  import opened MergeEnds
  import opened HeapMerge
  import opened LengthCounts
  import opened NodeLengths
  import opened LengthRepair
  import opened Reassign

  // Lengths `l` use up the code space exactly and are counted by `c`.
  ghost predicate Complete(symbols: set<nat>, l: nat -> nat, c: seq<nat>, top: nat)
  {
    && |c| == 16 && c[0] == 0
    && Between(symbols, l, 1, top)
    && Counted(symbols, l, c)
    && Space(symbols, l, top) == Pow2(top)
  }

  lemma NoneDeep(T: HTree, top: nat)
    requires WellFormed(T) && Excess(T, 0, top) == 0
    ensures forall x :: x in Ids(T) ==> Depth(T, 0, x) <= top
  {
    OverflowOfTree(T, top);
    forall x | x in Ids(T)
      ensures Depth(T, 0, x) <= top
    {
      SumSetRemove(Ids(T), x, AtDepth(T, 0, TooDeep(top)));
      SumSetNonneg(Ids(T) - {x}, AtDepth(T, 0, TooDeep(top)));
    }
  }

  // After the first pass the elements hold the clamped depths.
  lemma PassLengths(r: Run, t: seq<CtData>, c: seq<nat>, overflow: nat, opt: nat, stat: nat)
    requires ValidRun(r) && AfterNodes(r, |r.hs|, t, c, overflow, opt, stat)
    ensures |t| == |r.t0| && forall x :: 0 <= x < |t| ==> t[x].fc == r.t0[x].fc
    ensures forall x :: x in Leaves(r.T) ==> x < |t| && DlOf(t)(x) == Clamped(r.T, r.top)(x)
    ensures forall x :: 0 <= x < |t| && x !in Ids(r.T) ==> t[x] == r.t0[x]
  {
    hide PassOne, WellFormed, Numbered, Clamped, Leaves, Ids, TreeList;
    LeavesInIds(r.T);
    ListFacts(r.hs, r.T, r.t0);
    forall x | x in Leaves(r.T)
      ensures x < |t| && DlOf(t)(x) == Clamped(r.T, r.top)(x)
    {
      assert x in r.hs;
      var k :| 0 <= k < |r.hs| && r.hs[k] == x;
    }
    forall x | 0 <= x < |t| && x !in Ids(r.T)
      ensures t[x] == r.t0[x]
    {
      assert x !in r.hs;
    }
  }

  lemma SameBits(s: set<nat>, f: nat -> nat, l: nat -> nat, l': nat -> nat, xb: nat -> nat)
    requires forall x :: x in s ==> l(x) == l'(x)
    ensures SumSet(s, BitsFn(f, l, xb)) == SumSet(s, BitsFn(f, l', xb))
  {
    SumSetCongruent(s, BitsFn(f, l, xb), BitsFn(f, l', xb));
  }

  // Without clamping the lengths are the depths, and these cost what the tree costs.
  lemma DepthsCost(T: HTree, f: nat -> nat, l: nat -> nat)
    requires WellFormed(T) && forall x :: x in Leaves(T) ==> l(x) == Depth(T, 0, x)
    ensures TotalCost(Leaves(T), f, l) == HuffmanTree.Cost(T, f)
  {
    hide SumSet, LeafSum, HuffmanTree.Cost, Weight, Leaves, WellFormed;
    CostIsLeafSum(T, 0, f);
    LeafSumIsSumSet(T, 0, Times(f));
    forall x | x in Leaves(T)
      ensures AtDepth(T, 0, Times(f))(x) == CostFn(f, l)(x)
    {
    }
    SumSetCongruent(Leaves(T), AtDepth(T, 0, Times(f)), CostFn(f, l));
  }

  // Outcome of gen_bitlen: `l` are the lengths. They are the depths unless the tree
  // is too high.
  ghost predicate Outcome(r: Run, l: nat -> nat)
  {
    if Height(r.T) <= r.top then forall x :: x in Leaves(r.T) ==> l(x) == Depth(r.T, 0, x)
    else
      && (exists x :: x in Leaves(r.T) && l(x) == r.top)
      && (forall x, y :: x in Leaves(r.T) && y in Leaves(r.T) && r.f(x) < r.f(y) ==> l(x) >= l(y))
  }

  lemma SomeLongest(s: set<nat>, l: nat -> nat, c: seq<nat>, top: nat)
    requires Counted(s, l, c) && top < |c| && c[top] > 0
    ensures exists x :: x in s && l(x) == top
  {
    if forall x :: x in s ==> l(x) != top {
      SumOfZeros(s, CountFn(l, top));
    }
  }

  lemma Unclamped(r: Run, t: seq<CtData>, c: seq<nat>, overflow: nat, opt: nat)
    requires ValidRun(r) && Oversubscribed(r, t, c, overflow, opt, 0)
    requires forall x :: x in Leaves(r.T) ==> DlOf(t)(x) == Clamped(r.T, r.top)(x)
    ensures Complete(Leaves(r.T), DlOf(t), c, r.top)
    ensures Outcome(r, DlOf(t))
  {
    hide SumSet, CountsKraft, CountsTotal, DlOf, Leaves, Height, WellFormed, Numbered, Space, Counted, TreeList, Excess,
         Ids, BitsFn;
    NoneDeep(r.T, r.top);
    ExcessMeansHigh(r.T, 0, r.top);
    LeavesInIds(r.T);
    var leaves, l := Leaves(r.T), Clamped(r.T, r.top);
    CountedTotals(leaves, l, c, r.top);
    CountedSame(leaves, l, DlOf(t), c);
    Same(leaves, l, l, l, DlOf(t), r.top);
  }

  lemma Repaired(r: Run, t: seq<CtData>, c: seq<nat>)
    requires ValidRun(r) && |c| == 16 && c[0] == 0 && c[r.top] > 0
    requires Counted(Leaves(r.T), DlOf(t), c) && Between(Leaves(r.T), DlOf(t), 1, r.top)
    requires CountsKraft(c, r.top) == Pow2(r.top) && ByRarity(r, t)
    requires forall x :: x in Leaves(r.T) ==> x < |t|
    requires Height(r.T) > r.top
    ensures Complete(Leaves(r.T), DlOf(t), c, r.top)
    ensures Outcome(r, DlOf(t))
  {
    hide Height, SumSet, CountsKraft, CountsTotal, Leaves, WellFormed, Numbered, Space, Counted, TreeList, Pow2;
    CountedTotals(Leaves(r.T), DlOf(t), c, r.top);
    SomeLongest(Leaves(r.T), DlOf(t), c, r.top);
  }

  method GenBitlen(b: Builder, tree: array<CtData>, stree: array?<CtData>, extra: seq<nat>, base: nat,
                   maxCode: nat, maxLength: nat, ghost r: Run)
    requires Describes(b, stree, extra, base, maxCode, maxLength, r) && ValidRun(r) && stree != tree
    requires r.t0 == tree[..] && r.opt0 == b.optLen && r.stat0 == b.staticLen
    requires |Leaves(r.T)| <= Pow2(maxLength)
    modifies b`optLen, b`staticLen, b.blCount, tree
    ensures Complete(Leaves(r.T), DlOf(tree[..]), b.blCount[..], r.top)
    ensures Outcome(r, DlOf(tree[..]))
    ensures b.optLen == U32(r.opt0 + SumSet(Leaves(r.T), BitsFn(r.f, DlOf(tree[..]), r.xb)))
    ensures b.staticLen == U32(r.stat0 + SumSet(Leaves(r.T), r.sg))
    ensures forall x :: 0 <= x < tree.Length ==> tree[x].fc == old(tree[x].fc)
    ensures forall x :: 0 <= x < tree.Length && x !in Ids(r.T) ==> tree[x] == old(tree[x])
  {
    hide AfterNodes, ValidRun, SumSet, BitsFn, DlOf, Complete, Outcome, Leaves, Counted, Between, ByRarity, Clamped,
         CountsKraft, CountsTotal, Pow2, Ids, Excess, XbitsFn, StaticFn, Height;
    RunTop(r);
    var overflow := FirstPass(b, tree, stree, extra, base, maxCode, maxLength, r);
    ghost var t, c := tree[..], b.blCount[..];
    AfterFirstPass(r, t, c, overflow, b.optLen, b.staticLen);
    PassLengths(r, t, c, overflow, b.optLen, b.staticLen);
    SameBits(Leaves(r.T), r.f, Clamped(r.T, r.top), DlOf(t), r.xb);
    ExcessMeansHigh(r.T, 0, r.top);
    if overflow == 0 {
      Unclamped(r, t, c, overflow, b.optLen);
      return;
    }
    RepairCounts(b.blCount, maxLength, overflow);
    HandOut(b, tree, maxCode, maxLength, r);
    Repaired(r, tree[..], b.blCount[..]);
    LeavesInIds(r.T);
  }
}
