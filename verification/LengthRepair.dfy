/** The second half of gen_bitlen: when some lengths were clamped, the counts
    are repaired until the code space is exactly used up, and the lengths are
    handed out again in order of increasing frequency. */
module LengthRepair {
  import opened Arith
  import opened Codes
  import opened HuffmanTree
  import opened Optimal
  import opened Merging
  import opened MergeEnds
  import opened HeapMerge
  import opened LengthCounts
  import opened NodeLengths

  // ---------- what the first pass has established ----------

  lemma SpaceOfTree(T: HTree, top: nat)
    requires WellFormed(T)
    ensures Space(Leaves(T), Clamped(T, top), top) == Pow2(top) + Excess(T, 0, top)
  {
    hide SumSet, Leaves, WellFormed, LeafSum, Excess, Depth, Pow2;
    ClampedKraft(T, 0, top);
    LeafSumIsSumSet(T, 0, LeafWeight(top));
    forall x | x in Leaves(T)
      ensures AtDepth(T, 0, LeafWeight(top))(x) == SpaceFn(Clamped(T, top), top)(x)
    {
    }
    SumSetCongruent(Leaves(T), AtDepth(T, 0, LeafWeight(top)), SpaceFn(Clamped(T, top), top));
  }

  lemma OverflowOfTree(T: HTree, top: nat)
    requires WellFormed(T)
    ensures SumSet(Ids(T), AtDepth(T, 0, TooDeep(top))) == 2 * Excess(T, 0, top)
  {
    ClampedCount(T, 0, top);
    NodeSumIsSumSet(T, 0, TooDeep(top));
  }

  lemma LongestOfTree(T: HTree, top: nat)
    requires WellFormed(T) && top >= 1
    ensures Excess(T, 0, top) > 0 ==> SumSet(Leaves(T), CountFn(Clamped(T, top), top)) > Excess(T, 0, top)
  {
    hide SumSet;
    ClampedLeaves(T, 0, top);
    LeafSumIsSumSet(T, 0, AtLength(top));
    forall x | x in Leaves(T)
      ensures AtDepth(T, 0, AtLength(top))(x) == CountFn(Clamped(T, top), top)(x)
    {
    }
    SumSetCongruent(Leaves(T), AtDepth(T, 0, AtLength(top)), CountFn(Clamped(T, top), top));
  }

  lemma ClampedRange(T: HTree, top: nat)
    requires WellFormed(T) && T.Node? && top >= 1
    ensures Between(Leaves(T), Clamped(T, top), 1, top)
  {
    LeavesInIds(T);
    LeavesInIds(T.left);
    LeavesInIds(T.right);
    forall x | x in Leaves(T)
      ensures 1 <= Clamped(T, top)(x) <= top
    {
      DepthAtLeast(T, 0, x);
    }
  }

  // The state between the first pass and the repair: `e` codes too many.
  ghost predicate Oversubscribed(r: Run, t: seq<CtData>, c: seq<nat>, overflow: nat, opt: nat, e: nat)
  {
    && |c| == 16 && r.top <= 15 && c[0] == 0 && overflow == 2 * e && e == Excess(r.T, 0, r.top)
    && Counted(Leaves(r.T), Clamped(r.T, r.top), c)
    && Between(Leaves(r.T), Clamped(r.T, r.top), 1, r.top)
    && CountsKraft(c, r.top) == Pow2(r.top) + e
    && CountsTotal(c, r.top) == |Leaves(r.T)|
    && (e > 0 ==> c[r.top] > e)
    && (forall b :: r.top < b < 16 ==> c[b] == 0)
    && opt == U32(r.opt0 + SumSet(Leaves(r.T), BitsFn(r.f, Clamped(r.T, r.top), r.xb)))
  }

  lemma AfterFirstPass(r: Run, t: seq<CtData>, c: seq<nat>, overflow: nat, opt: nat, stat: nat)
    requires ValidRun(r) && AfterNodes(r, |r.hs|, t, c, overflow, opt, stat)
    ensures Oversubscribed(r, t, c, overflow, opt, Excess(r.T, 0, r.top))
    ensures stat == U32(r.stat0 + SumSet(Leaves(r.T), r.sg))
  {
    hide SumSet, Space, CountsKraft, CountsTotal, TreeList, Descended, Clamped, CountFn;
    hide U32, Excess, Ids, Leaves, WellFormed, Numbered, Depth, AtDepth, Seen, BitsFn, Pow2;
    var T, top, leaves := r.T, r.top, Leaves(r.T);
    var l := Clamped(T, top);
    SeenAll(r.hs, T, r.t0);
    LeavesInIds(T);
    assert Ids(T) * leaves == leaves;
    SpaceOfTree(T, top);
    OverflowOfTree(T, top);
    LongestOfTree(T, top);
    ClampedRange(T, top);
    CountedTotals(leaves, l, c, top);
    UnusedLengths(leaves, l, c, top);
  }

  lemma UnusedLengths(s: set<nat>, l: nat -> nat, c: seq<nat>, top: nat)
    requires Counted(s, l, c) && Between(s, l, 1, top) && |c| == 16
    ensures c[0] == 0 && forall b :: top < b < 16 ==> c[b] == 0
  {
    forall b | 0 <= b < 16 && (b == 0 || b > top)
      ensures c[b] == 0
    {
      SumOfZeros(s, CountFn(l, b));
    }
  }

  // ---------- repairing the counts ----------

  lemma RepairStep(c: seq<nat>, top: nat, bits: nat)
    requires 1 <= bits < top < |c| && c[bits] >= 1 && c[top] >= 1
    ensures var c1 := c[bits := c[bits] - 1];
            var c2 := c1[bits + 1 := c1[bits + 1] + 2];
            var c3 := c2[top := c2[top] - 1];
            && CountsKraft(c3, top) == CountsKraft(c, top) - 1
            && CountsTotal(c3, top) == CountsTotal(c, top)
            && c3[top] >= c[top] - 1
  {
    hide CountsKraft, CountsTotal, Pow2;
    var c1 := c[bits := c[bits] - 1];
    var c2 := c1[bits + 1 := c1[bits + 1] + 2];
    KraftUpdate(c, bits, c[bits] - 1, top);
    KraftUpdate(c1, bits + 1, c1[bits + 1] + 2, top);
    KraftUpdate(c2, top, c2[top] - 1, top);
    Pow2Next(top - bits - 1);
    assert Pow2(top - top) == 1 by { Pow2Values(); }
  }

  // Each round moves one leaf down and brings one overflowing leaf beside it.
  method RepairCounts(c: array<nat>, maxLength: nat, overflow: nat)
    requires c.Length == 16 && 1 <= maxLength <= 15 && overflow > 0 && overflow % 2 == 0
    requires c[0] == 0 && c[maxLength] > overflow / 2
    requires CountsKraft(c[..], maxLength) == Pow2(maxLength) + overflow / 2
    requires CountsTotal(c[..], maxLength) <= Pow2(maxLength)
    modifies c
    ensures c[0] == 0 && c[maxLength] > 0
    ensures forall b :: maxLength < b < 16 ==> c[b] == old(c[b])
    ensures CountsKraft(c[..], maxLength) == Pow2(maxLength)
    ensures CountsTotal(c[..], maxLength) == old(CountsTotal(c[..], maxLength))
  {
    hide CountsKraft, CountsTotal, Pow2;
    ghost var total := CountsTotal(c[..], maxLength);
    var left := overflow;
    while true
      invariant 0 < left && left % 2 == 0
      invariant c[0] == 0 && c[maxLength] > left / 2
      invariant forall b :: maxLength < b < 16 ==> c[b] == old(c[b])
      invariant CountsKraft(c[..], maxLength) == Pow2(maxLength) + left / 2
      invariant CountsTotal(c[..], maxLength) == total
      decreases left
    {
      var bits := LongestShorter(c, maxLength);
      ghost var s := c[..];
      RepairStep(s, maxLength, bits);
      c[bits] := c[bits] - 1;
      c[bits + 1] := c[bits + 1] + 2;
      c[maxLength] := c[maxLength] - 1;
      ghost var s1 := s[bits := s[bits] - 1];
      ghost var s2 := s1[bits + 1 := s1[bits + 1] + 2];
      assert c[..] == s2[maxLength := s2[maxLength] - 1];
      left := left - 2;
      if left <= 0 {
        break;
      }
    }
  }

  // The first bit length which could increase.
  method LongestShorter(c: array<nat>, maxLength: nat) returns (bits: nat)
    requires c.Length == 16 && 1 <= maxLength <= 15
    requires CountsKraft(c[..], maxLength) > Pow2(maxLength) >= CountsTotal(c[..], maxLength)
    ensures 1 <= bits < maxLength && c[bits] > 0
  {
    hide CountsKraft, CountsTotal, Pow2;
    assert maxLength > 1 by {
      if maxLength == 1 {
        NothingShorter(c[..], 1);
      }
    }
    bits := maxLength - 1;
    while c[bits] == 0
      invariant 1 <= bits < maxLength
      invariant forall k :: bits < k < maxLength ==> c[k] == 0
      decreases bits
    {
      assert bits > 1 by {
        if bits == 1 {
          NothingShorter(c[..], maxLength);
        }
      }
      bits := bits - 1;
    }
  }
}
