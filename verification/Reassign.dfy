/** The last loop of gen_bitlen: going through the nodes from the rarest to the
    most frequent, the repaired counts are handed out as lengths, longest first. */
module Reassign {
  import opened Arith
  import opened Codes
  import opened HuffmanTree
  import opened Optimal
  import opened Merging
  import opened MergeEnds
  import opened HeapMerge
  import opened LengthCounts
  import opened NodeLengths

  // The leaves from position `i` of the list on.
  ghost function LeavesFrom(hs: seq<nat>, leaves: set<nat>, i: nat): set<nat>
  {
    set k | i <= k < |hs| && hs[k] in leaves :: hs[k]
  }

  ghost predicate Distinct(hs: seq<nat>)
  {
    forall j, k :: 0 <= j < k < |hs| ==> hs[j] != hs[k]
  }

  lemma LeavesFromStep(hs: seq<nat>, leaves: set<nat>, i: nat)
    requires 0 < i <= |hs| && Distinct(hs)
    ensures hs[i - 1] !in LeavesFrom(hs, leaves, i)
    ensures LeavesFrom(hs, leaves, i - 1) ==
            LeavesFrom(hs, leaves, i) + (if hs[i - 1] in leaves then {hs[i - 1]} else {})
  {
    assert forall k :: i <= k < |hs| ==> hs[k] != hs[i - 1];
  }

  lemma LeavesFromAll(hs: seq<nat>, leaves: set<nat>)
    requires forall x :: x in leaves ==> x in hs
    ensures LeavesFrom(hs, leaves, 0) == leaves
  {
    forall x | x in leaves
      ensures x in LeavesFrom(hs, leaves, 0)
    {
      assert x in hs;
    }
  }

  // How many of the codes of length `b` have been handed out when lengths above
  // `bits` are finished and `n` codes of length `bits` remain.
  function Given(c: seq<nat>, bits: nat, n: nat, b: nat): int
    requires b < |c|
  {
    if b > bits then c[b] else if b == bits then c[b] - n else 0
  }

  // `t1` are the elements before, `t` after handing out lengths to the leaves
  // from position `i` on.
  ghost predicate Handed(hs: seq<nat>, leaves: set<nat>, t1: seq<CtData>, t: seq<CtData>, i: nat)
  {
    && |t| == |t1| && i <= |hs|
    && (forall x :: x in leaves ==> x < |t|)
    && (forall x :: 0 <= x < |t| ==> t[x].fc == t1[x].fc)
    && (forall x :: 0 <= x < |t| && x !in LeavesFrom(hs, leaves, i) ==> t[x] == t1[x])
  }

  // Longer codes towards the end of the list.
  ghost predicate Rising(hs: seq<nat>, leaves: set<nat>, t: seq<CtData>, i: nat)
  {
    && (forall x :: x in leaves ==> x < |t|)
    && (forall j, k :: i <= j < k < |hs| && hs[j] in leaves && hs[k] in leaves ==> t[hs[j]].dl <= t[hs[k]].dl)
  }

  ghost predicate Counts(s: set<nat>, t: seq<CtData>, c: seq<nat>, bits: nat, n: nat)
  {
    forall b :: 0 <= b < |c| ==> SumSet(s, CountFn(DlOf(t), b)) == Given(c, bits, n, b)
  }

  lemma HandLeaf(hs: seq<nat>, leaves: set<nat>, t1: seq<CtData>, t: seq<CtData>, i: nat, bits: nat)
    requires Handed(hs, leaves, t1, t, i) && 0 < i && Distinct(hs) && hs[i - 1] in leaves
    ensures Handed(hs, leaves, t1, t[hs[i - 1] := t[hs[i - 1]].(dl := bits)], i - 1)
  {
    LeavesFromStep(hs, leaves, i);
  }

  lemma RiseLeaf(hs: seq<nat>, leaves: set<nat>, t: seq<CtData>, i: nat, bits: nat, top: nat)
    requires Rising(hs, leaves, t, i) && 0 < i <= |hs| && Distinct(hs) && hs[i - 1] in leaves
    requires Between(LeavesFrom(hs, leaves, i), DlOf(t), bits, top) && bits <= top
    ensures Rising(hs, leaves, t[hs[i - 1] := t[hs[i - 1]].(dl := bits)], i - 1)
    ensures Between(LeavesFrom(hs, leaves, i - 1), DlOf(t[hs[i - 1] := t[hs[i - 1]].(dl := bits)]), bits, top)
  {
    LeavesFromStep(hs, leaves, i);
    var m := hs[i - 1];
    var t' := t[m := t[m].(dl := bits)];
    forall x | x in LeavesFrom(hs, leaves, i - 1)
      ensures bits <= DlOf(t')(x) <= top
    {
      if x != m {
        assert DlOf(t')(x) == DlOf(t)(x);
      }
    }
    forall j, k | i - 1 <= j < k < |hs| && hs[j] in leaves && hs[k] in leaves
      ensures t'[hs[j]].dl <= t'[hs[k]].dl
    {
      assert hs[k] != m;
      assert hs[k] in LeavesFrom(hs, leaves, i);
      assert DlOf(t)(hs[k]) == t[hs[k]].dl;
      if j != i - 1 {
        assert hs[j] != m;
      }
    }
  }

  lemma CountLeaf(s: set<nat>, t: seq<CtData>, c: seq<nat>, bits: nat, n: nat, m: nat)
    requires Counts(s, t, c, bits, n) && m !in s && m < |t| && n > 0 && bits < |c|
    ensures Counts(s + {m}, t[m := t[m].(dl := bits)], c, bits, n - 1)
  {
    hide SumSet;
    var t' := t[m := t[m].(dl := bits)];
    forall b | 0 <= b < |c|
      ensures SumSet(s + {m}, CountFn(DlOf(t'), b)) == Given(c, bits, n - 1, b)
    {
      SumSetAdd(s, m, CountFn(DlOf(t'), b));
      SumSetCongruent(s, CountFn(DlOf(t), b), CountFn(DlOf(t'), b));
    }
  }

  // Changing one length changes the total accordingly.
  lemma BitsLeaf(leaves: set<nat>, t: seq<CtData>, f: nat -> nat, xb: nat -> nat, m: nat, bits: nat, opt0: nat, opt: nat)
    requires m in leaves && m < |t|
    requires opt == U32(opt0 + SumSet(leaves, BitsFn(f, DlOf(t), xb)))
    ensures U32(opt + (bits - t[m].dl) * f(m))
         == U32(opt0 + SumSet(leaves, BitsFn(f, DlOf(t[m := t[m].(dl := bits)]), xb)))
  {
    hide SumSet, U32;
    var t' := t[m := t[m].(dl := bits)];
    SumSetRemove(leaves, m, BitsFn(f, DlOf(t), xb));
    SumSetRemove(leaves, m, BitsFn(f, DlOf(t'), xb));
    SumSetCongruent(leaves - {m}, BitsFn(f, DlOf(t), xb), BitsFn(f, DlOf(t'), xb));
    ChangeProduct(f(m), t[m].dl, bits, xb(m));
    U32Add(opt0 + SumSet(leaves, BitsFn(f, DlOf(t), xb)), (bits - t[m].dl) * f(m));
  }

  lemma ChangeProduct(f: nat, a: nat, b: nat, x: nat)
    ensures f * (b + x) == f * (a + x) + (b - a) * f
  {
  }

  // ---------- the state of the two loops ----------

  ghost predicate Handing(r: Run, t1: seq<CtData>, t: seq<CtData>, c: seq<nat>, i: nat, bits: nat, n: nat, opt: nat)
  {
    && 1 <= bits <= r.top < |c| == 16 && n <= c[bits]
    && Handed(r.hs, Leaves(r.T), t1, t, i)
    && Rising(r.hs, Leaves(r.T), t, i)
    && Between(LeavesFrom(r.hs, Leaves(r.T), i), DlOf(t), bits, r.top)
    && Counts(LeavesFrom(r.hs, Leaves(r.T), i), t, c, bits, n)
    && |LeavesFrom(r.hs, Leaves(r.T), i)| + n + CountsTotal(c, bits - 1) == |Leaves(r.T)|
    && opt == U32(r.opt0 + SumSet(Leaves(r.T), BitsFn(r.f, DlOf(t), r.xb)))
  }

  lemma HandingStart(r: Run, t1: seq<CtData>, c: seq<nat>, opt: nat)
    requires ValidRun(r) && |c| == 16 && |t1| == |r.t0|
    requires CountsTotal(c, r.top) == |Leaves(r.T)| && forall b :: r.top < b < 16 ==> c[b] == 0
    requires opt == U32(r.opt0 + SumSet(Leaves(r.T), BitsFn(r.f, DlOf(t1), r.xb)))
    ensures Handing(r, t1, t1, c, |r.hs|, r.top, c[r.top], opt)
  {
    hide SumSet, TreeList, WellFormed, Numbered, BitsFn, Leaves;
    assert LeavesFrom(r.hs, Leaves(r.T), |r.hs|) == {};
    forall b | 0 <= b < 16
      ensures SumSet({}, CountFn(DlOf(t1), b)) == Given(c, r.top, c[r.top], b)
    {
      SumEmpty(CountFn(DlOf(t1), b));
    }
  }

  // There is still a node to look at.
  lemma HandingRoom(r: Run, t1: seq<CtData>, t: seq<CtData>, c: seq<nat>, i: nat, bits: nat, n: nat, opt: nat)
    requires ValidRun(r) && Handing(r, t1, t, c, i, bits, n, opt) && n > 0 && |t1| == |r.t0|
    ensures 0 < i <= |r.hs| && r.hs[i - 1] < |t| && Distinct(r.hs)
    ensures r.hs[i - 1] in Leaves(r.T) <==> r.hs[i - 1] <= r.maxCode
  {
    hide SumSet, Counts, Between, Rising, WellFormed, Numbered, BitsFn, CountsTotal, TreeList, Leaves, LeavesFrom, Ids;
    LeavesInIds(r.T);
    ListFacts(r.hs, r.T, r.t0);
    LeavesFromAll(r.hs, Leaves(r.T));
    assert i > 0;
    LeafTest(r.T, r.elems, r.maxCode, r.hs[i - 1]);
  }

  lemma ListFacts(hs: seq<nat>, T: HTree, t: seq<CtData>)
    requires TreeList(hs, T, t)
    ensures Distinct(hs)
    ensures forall i :: 0 <= i < |hs| ==> hs[i] < |t| && hs[i] in Ids(T)
    ensures forall x :: x in Ids(T) ==> x in hs
    ensures forall i, j :: 0 <= i < j < |hs| ==> t[hs[i]].fc >= t[hs[j]].fc
  {
    forall i | 0 <= i < |hs|
      ensures hs[i] in Ids(T)
    {
      assert hs[i] in hs;
    }
  }

  lemma HandingInner(r: Run, t1: seq<CtData>, t: seq<CtData>, c: seq<nat>, i: nat, bits: nat, n: nat, opt: nat)
    requires Handing(r, t1, t, c, i, bits, n, opt) && 0 < i <= |r.hs| && Distinct(r.hs) && r.hs[i - 1] !in Leaves(r.T)
    ensures Handing(r, t1, t, c, i - 1, bits, n, opt)
  {
    hide SumSet, Counts, Between, BitsFn, CountsTotal, Leaves;
    LeavesFromStep(r.hs, Leaves(r.T), i);
    assert LeavesFrom(r.hs, Leaves(r.T), i - 1) == LeavesFrom(r.hs, Leaves(r.T), i);
  }

  lemma HandingLeaf(r: Run, t1: seq<CtData>, t: seq<CtData>, c: seq<nat>, i: nat, bits: nat, n: nat, opt: nat)
    requires Handing(r, t1, t, c, i, bits, n, opt) && n > 0
    requires 0 < i <= |r.hs| && Distinct(r.hs) && r.hs[i - 1] in Leaves(r.T)
    ensures r.hs[i - 1] < |t|
    ensures var m := r.hs[i - 1];
            Handing(r, t1, t[m := t[m].(dl := bits)], c, i - 1, bits, n - 1, U32(opt + (bits - t[m].dl) * r.f(m)))
  {
    hide SumSet, Counts, Between, BitsFn, CountsTotal, Leaves, Rising, Handed, LeavesFrom, DlOf;
    var m, leaves := r.hs[i - 1], Leaves(r.T);
    LeavesFromStep(r.hs, leaves, i);
    HandedRange(r.hs, leaves, t1, t, i);
    HandLeaf(r.hs, leaves, t1, t, i, bits);
    RiseLeaf(r.hs, leaves, t, i, bits, r.top);
    CountLeaf(LeavesFrom(r.hs, leaves, i), t, c, bits, n, m);
    BitsLeaf(leaves, t, r.f, r.xb, m, bits, r.opt0, opt);
  }

  lemma HandedRange(hs: seq<nat>, leaves: set<nat>, t1: seq<CtData>, t: seq<CtData>, i: nat)
    requires Handed(hs, leaves, t1, t, i)
    ensures forall x :: x in leaves ==> x < |t|
  {
  }

  lemma HandingNext(r: Run, t1: seq<CtData>, t: seq<CtData>, c: seq<nat>, i: nat, bits: nat, opt: nat)
    requires Handing(r, t1, t, c, i, bits, 0, opt) && bits > 1
    ensures Handing(r, t1, t, c, i, bits - 1, c[bits - 1], opt)
  {
    hide SumSet, BitsFn, Leaves, Rising, Handed, LeavesFrom, DlOf;
  }

  lemma HandingEnd(r: Run, t1: seq<CtData>, t: seq<CtData>, c: seq<nat>, i: nat, opt: nat)
    requires ValidRun(r) && Handing(r, t1, t, c, i, 1, 0, opt) && c[0] == 0
    ensures LeavesFrom(r.hs, Leaves(r.T), i) == Leaves(r.T)
    ensures Between(Leaves(r.T), DlOf(t), 1, r.top)
    ensures Counted(Leaves(r.T), DlOf(t), c)
    ensures ByRarity(r, t)
  {
    hide SumSet, BitsFn, Leaves, DlOf, WellFormed, Numbered;
    var leaves := Leaves(r.T);
    var done := LeavesFrom(r.hs, leaves, i);
    assert CountsTotal(c, 0) == 0;
    SameSize(done, leaves);
    EndRarity(r, t1, t, i);
    LengthsCounted(leaves, t, c);
  }

  lemma LengthsCounted(s: set<nat>, t: seq<CtData>, c: seq<nat>)
    requires |c| == 16 && c[0] == 0 && Counts(s, t, c, 1, 0)
    ensures Counted(s, DlOf(t), c)
  {
    hide SumSet;
  }

  // A rarer symbol never has the shorter code.
  ghost predicate ByRarity(r: Run, t: seq<CtData>)
  {
    forall x, y :: x in Leaves(r.T) && y in Leaves(r.T) && x < |t| && y < |t| && r.f(x) < r.f(y) ==> t[x].dl >= t[y].dl
  }

  lemma EndRarity(r: Run, t1: seq<CtData>, t: seq<CtData>, i: nat)
    requires ValidRun(r) && Handed(r.hs, Leaves(r.T), t1, t, i) && Rising(r.hs, Leaves(r.T), t, i)
    requires LeavesFrom(r.hs, Leaves(r.T), i) == Leaves(r.T)
    ensures ByRarity(r, t)
  {
    hide Leaves, WellFormed, Numbered, TreeList;
    ListFacts(r.hs, r.T, r.t0);
    var leaves := Leaves(r.T);
    forall x, y | x in leaves && y in leaves && x < |t| && y < |t| && r.f(x) < r.f(y)
      ensures t[x].dl >= t[y].dl
    {
      var j :| i <= j < |r.hs| && r.hs[j] == x;
      var k :| i <= k < |r.hs| && r.hs[k] == y;
      assert r.t0[x].fc < r.t0[y].fc;
      NotRarer(r, j, k);
    }
  }

  lemma NotRarer(r: Run, j: nat, k: nat)
    requires ValidRun(r) && j < |r.hs| && k < |r.hs|
    ensures r.hs[j] < |r.t0| && r.hs[k] < |r.t0|
    ensures j < k ==> r.t0[r.hs[j]].fc >= r.t0[r.hs[k]].fc
  {
    ListFacts(r.hs, r.T, r.t0);
  }

  lemma SameSize(a: set<nat>, b: set<nat>)
    requires a <= b && |a| == |b|
    ensures a == b
  {
    assert |b - a| == |b| - |a|;
  }

  // Hand out one length to as many leaves as the counts say.
  method HandLength(b: Builder, tree: array<CtData>, maxCode: nat, bits: nat, start: nat,
                    ghost r: Run, ghost t1: seq<CtData>, ghost c: seq<nat>)
    returns (h: nat)
    requires ValidRun(r) && b.Valid() && 0 < b.heapMax < HEAP_SIZE && r.hs == b.heap[b.heapMax..]
    requires maxCode == r.maxCode && |t1| == |r.t0| && forall x :: 0 <= x < |t1| ==> t1[x].fc == r.t0[x].fc
    requires b.heapMax <= start <= HEAP_SIZE && b.blCount[..] == c && bits < |c|
    requires Handing(r, t1, tree[..], c, start - b.heapMax, bits, c[bits], b.optLen)
    modifies b`optLen, tree
    ensures b.heapMax <= h <= HEAP_SIZE
    ensures Handing(r, t1, tree[..], c, h - b.heapMax, bits, 0, b.optLen)
  {
    hide Handing, SumSet, BitsFn, DlOf, ValidRun, Leaves;
    h := start;
    var n := b.blCount[bits];
    while n != 0
      invariant b.heapMax <= h <= HEAP_SIZE && 0 <= n <= c[bits]
      invariant Handing(r, t1, tree[..], c, h - b.heapMax, bits, n, b.optLen)
      decreases h
    {
      ghost var i, t := h - b.heapMax, tree[..];
      HandingRoom(r, t1, t, c, i, bits, n, b.optLen);
      h := h - 1;
      var m := b.heap[h];
      assert m == r.hs[i - 1];
      if m > maxCode {
        HandingInner(r, t1, t, c, i, bits, n, b.optLen);
        continue;
      }
      HandingLeaf(r, t1, t, c, i, bits, n, b.optLen);
      HandedFreq(r, t1, t, c, i, bits, n, b.optLen, m);
      if tree[m].dl != bits {
        b.optLen := U32(b.optLen + (bits - tree[m].dl) * tree[m].fc);
        tree[m] := tree[m].(dl := bits);
      } else {
        NoChange(r, t1, t, c, i, bits, n, b.optLen, m);
      }
      assert tree[..] == t[m := t[m].(dl := bits)];
      n := n - 1;
    }
  }

  method HandOut(b: Builder, tree: array<CtData>, maxCode: nat, maxLength: nat, ghost r: Run)
    requires ValidRun(r) && b.Valid() && 0 < b.heapMax < HEAP_SIZE && r.hs == b.heap[b.heapMax..]
    requires maxLength == r.top && maxCode == r.maxCode && tree.Length == |r.t0|
    requires forall x :: 0 <= x < tree.Length ==> tree[x].fc == r.t0[x].fc
    requires CountsTotal(b.blCount[..], r.top) == |Leaves(r.T)| && b.blCount[0] == 0
    requires forall k :: r.top < k < 16 ==> b.blCount[k] == 0
    requires b.optLen == U32(r.opt0 + SumSet(Leaves(r.T), BitsFn(r.f, DlOf(tree[..]), r.xb)))
    modifies b`optLen, tree
    ensures Between(Leaves(r.T), DlOf(tree[..]), 1, r.top)
    ensures Counted(Leaves(r.T), DlOf(tree[..]), b.blCount[..])
    ensures ByRarity(r, tree[..])
    ensures b.optLen == U32(r.opt0 + SumSet(Leaves(r.T), BitsFn(r.f, DlOf(tree[..]), r.xb)))
    ensures forall x :: 0 <= x < tree.Length ==> tree[x].fc == old(tree[x].fc)
    ensures forall x :: 0 <= x < tree.Length && x !in Leaves(r.T) ==> tree[x] == old(tree[x])
  {
    hide Handing, SumSet, BitsFn, DlOf, ValidRun, Leaves, Counted, Between, CountsTotal, ByRarity;
    ghost var t1, c := tree[..], b.blCount[..];
    var h := HEAP_SIZE;
    RunTop(r);
    HandingStart(r, t1, c, b.optLen);
    var bits := maxLength;
    while bits != 0
      invariant 0 <= bits <= maxLength && b.heapMax <= h <= HEAP_SIZE
      invariant b.blCount[..] == c
      invariant bits != 0 ==> Handing(r, t1, tree[..], c, h - b.heapMax, bits, c[bits], b.optLen)
      invariant bits == 0 ==> Handing(r, t1, tree[..], c, h - b.heapMax, 1, 0, b.optLen)
    {
      h := HandLength(b, tree, maxCode, bits, h, r, t1, c);
      if bits > 1 {
        HandingNext(r, t1, tree[..], c, h - b.heapMax, bits, b.optLen);
      }
      bits := bits - 1;
    }
    HandingEnd(r, t1, tree[..], c, h - b.heapMax, b.optLen);
    HandingResult(r, t1, tree[..], c, h - b.heapMax, 1, 0, b.optLen);
  }

  lemma RunTop(r: Run)
    requires ValidRun(r)
    ensures 1 <= r.top <= 15
  {
  }

  lemma HandedFreq(r: Run, t1: seq<CtData>, t: seq<CtData>, c: seq<nat>, i: nat, bits: nat, n: nat, opt: nat, m: nat)
    requires ValidRun(r) && Handing(r, t1, t, c, i, bits, n, opt) && m in Leaves(r.T)
    requires |t1| == |r.t0| && forall x :: 0 <= x < |t1| ==> t1[x].fc == r.t0[x].fc
    ensures m < |t| && t[m].fc == r.f(m)
  {
  }

  lemma NoChange(r: Run, t1: seq<CtData>, t: seq<CtData>, c: seq<nat>, i: nat, bits: nat, n: nat, opt: nat, m: nat)
    requires Handing(r, t1, t, c, i, bits, n, opt) && m < |t| && t[m].dl == bits
    ensures U32(opt + (bits - t[m].dl) * r.f(m)) == opt
  {
    hide SumSet;
    assert (bits - t[m].dl) * r.f(m) == 0;
  }

  lemma HandingResult(r: Run, t1: seq<CtData>, t: seq<CtData>, c: seq<nat>, i: nat, bits: nat, n: nat, opt: nat)
    requires Handing(r, t1, t, c, i, bits, n, opt)
    ensures |t| == |t1| && forall x :: 0 <= x < |t| ==> t[x].fc == t1[x].fc
    ensures forall x :: 0 <= x < |t| && x !in Leaves(r.T) ==> t[x] == t1[x]
    ensures opt == U32(r.opt0 + SumSet(Leaves(r.T), BitsFn(r.f, DlOf(t), r.xb)))
  {
    hide SumSet;
  }
}
