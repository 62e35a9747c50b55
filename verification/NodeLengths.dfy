/** The first pass of gen_bitlen: code lengths from the father links, clamped to
    the maximum. */
module NodeLengths {
  import opened Arith
  import opened Codes
  import opened HuffmanTree
  import opened Optimal
  import opened Merging
  import opened MergeEnds
  import opened HeapMerge
  import opened LengthCounts

  // Extra bits of symbol `n`.
  function Xbits(extra: seq<nat>, base: nat, n: nat): nat
  {
    if base <= n < base + |extra| then extra[n - base] else 0
  }

  function XbitsFn(extra: seq<nat>, base: nat): nat -> nat
  {
    (n: nat) => Xbits(extra, base, n)
  }

  // Depth of each node, clamped.
  ghost function Clamped(T: HTree, top: nat): nat -> nat
  {
    (x: nat) => Min(Depth(T, 0, x), top)
  }

  // ---------- the first pass ----------

  // The first `i` nodes of the list have their length, the others are untouched.
  ghost predicate Descended(t0: seq<CtData>, t: seq<CtData>, hs: seq<nat>, i: nat, l: nat -> nat)
  {
    && |t| == |t0| && i <= |hs|
    && (forall k :: 0 <= k < |hs| ==> hs[k] < |t|)
    && (forall k :: 0 <= k < i ==> t[hs[k]].dl == l(hs[k]))
    && (forall k :: i <= k < |hs| ==> t[hs[k]] == t0[hs[k]])
    && (forall x :: 0 <= x < |t| ==> t[x].fc == t0[x].fc)
    && (forall x :: 0 <= x < |t| && x !in hs ==> t[x] == t0[x])
  }

  lemma LengthFromDad(t0: seq<CtData>, t: seq<CtData>, hs: seq<nat>, i: nat, T: HTree, top: nat)
    requires TreeList(hs, T, t0) && WellFormed(T) && 1 <= i < |hs|
    requires Descended(t0, t, hs, i, Clamped(T, top))
    ensures hs[i] < |t| && t[hs[i]].dl < |t| && hs[i] in Ids(T)
    ensures Depth(T, 0, hs[i]) >= 1
    ensures t[t[hs[i]].dl].dl == Min(Depth(T, 0, hs[i]) - 1, top)
  {
    hide WellFormed, Ids, Depth, Dad, TreeList, Descended;
    var n := hs[i];
    var k := FatherInList(hs, T, t0, i);
    DescendedAt(t0, t, hs, i, Clamped(T, top), k);
    DadDepth(T, 0, n);
  }

  lemma FatherInList(hs: seq<nat>, T: HTree, t: seq<CtData>, i: nat) returns (k: nat)
    requires TreeList(hs, T, t) && 1 <= i < |hs|
    ensures hs[i] in Ids(T) && hs[i] != T.id && hs[i] < |t| && t[hs[i]].dl == Dad(T, hs[i])
    ensures k < i && hs[k] == t[hs[i]].dl && hs[k] < |t|
  {
    hide Ids, Dad;
    assert hs[i] in hs;
    k :| 0 <= k < i && hs[..i][k] == t[hs[i]].dl;
  }

  lemma DescendedAt(t0: seq<CtData>, t: seq<CtData>, hs: seq<nat>, i: nat, l: nat -> nat, k: nat)
    requires Descended(t0, t, hs, i, l) && k < i < |hs|
    ensures |t| == |t0| && hs[i] < |t| && hs[k] < |t| && t[hs[k]].dl == l(hs[k]) && t[hs[i]] == t0[hs[i]]
  {
  }

  lemma DescendStep(t0: seq<CtData>, t: seq<CtData>, hs: seq<nat>, i: nat, l: nat -> nat, bits: nat)
    requires Descended(t0, t, hs, i, l) && i < |hs| && bits == l(hs[i])
    requires forall j, k :: 0 <= j < k < |hs| ==> hs[j] != hs[k]
    ensures Descended(t0, t[hs[i] := t[hs[i]].(dl := bits)], hs, i + 1, l)
  {
    var t' := t[hs[i] := t[hs[i]].(dl := bits)];
    forall k | i + 1 <= k < |hs|
      ensures t'[hs[k]] == t0[hs[k]]
    {
      assert hs[i] != hs[k];
    }
    forall k | 0 <= k < i
      ensures t'[hs[k]].dl == l(hs[k])
    {
      assert hs[k] != hs[i];
    }
  }

  // The nodes among the first `i` of the list.
  ghost function Seen(hs: seq<nat>, i: nat): set<nat>
    requires i <= |hs|
  {
    set k | 0 <= k < i :: hs[k]
  }

  lemma SeenNext(hs: seq<nat>, i: nat)
    requires i < |hs| && forall j, k :: 0 <= j < k < |hs| ==> hs[j] != hs[k]
    ensures Seen(hs, i + 1) == Seen(hs, i) + {hs[i]} && hs[i] !in Seen(hs, i)
  {
    assert forall k :: 0 <= k < i ==> hs[k] != hs[i];
  }

  lemma SeenAll(hs: seq<nat>, T: HTree, t: seq<CtData>)
    requires TreeList(hs, T, t)
    ensures Seen(hs, |hs|) == Ids(T)
  {
    forall x | x in Ids(T)
      ensures x in Seen(hs, |hs|)
    {
      assert x in hs;
    }
    forall x | x in Seen(hs, |hs|)
      ensures x in Ids(T)
    {
      assert x in hs;
    }
  }

  // What the first pass has added up when it has seen the nodes `seen`.
  ghost predicate PassOne(seen: set<nat>, T: HTree, top: nat, f: nat -> nat, xb: nat -> nat, sg: nat -> int,
                          c: seq<nat>, overflow: nat, opt0: nat, opt: nat, stat0: nat, stat: nat)
  {
    && |c| == 16
    && Counted(seen * Leaves(T), Clamped(T, top), c)
    && overflow == SumSet(seen, AtDepth(T, 0, TooDeep(top)))
    && opt == U32(opt0 + SumSet(seen * Leaves(T), BitsFn(f, Clamped(T, top), xb)))
    && stat == U32(stat0 + SumSet(seen * Leaves(T), sg))
  }

  lemma PassOneStart(T: HTree, top: nat, f: nat -> nat, xb: nat -> nat, sg: nat -> int, c: seq<nat>, opt: nat, stat: nat)
    requires |c| == 16 && (forall b :: 0 <= b < 16 ==> c[b] == 0) && T.Node? && WellFormed(T)
    requires opt < 0x1_0000_0000 && stat < 0x1_0000_0000
    ensures PassOne({T.id}, T, top, f, xb, sg, c, 0, opt, opt, stat, stat)
  {
    hide SumSet, Counted, Clamped;
    LeavesInIds(T.left);
    LeavesInIds(T.right);
    assert {T.id} * Leaves(T) == {};
    CountedEmpty(Clamped(T, top), c);
    SumEmpty(BitsFn(f, Clamped(T, top), xb));
    SumEmpty(sg);
    SumSetSingle(T.id, AtDepth(T, 0, TooDeep(top)));
    assert Depth(T, 0, T.id) == 0;
  }

  lemma PassOneInner(seen: set<nat>, T: HTree, top: nat, f: nat -> nat, xb: nat -> nat, sg: nat -> int,
                     c: seq<nat>, overflow: nat, opt0: nat, opt: nat, stat0: nat, stat: nat, n: nat)
    requires PassOne(seen, T, top, f, xb, sg, c, overflow, opt0, opt, stat0, stat)
    requires n !in seen && n !in Leaves(T)
    ensures PassOne(seen + {n}, T, top, f, xb, sg, c, overflow + (if Depth(T, 0, n) > top then 1 else 0),
                    opt0, opt, stat0, stat)
  {
    hide SumSet, Counted;
    assert (seen + {n}) * Leaves(T) == seen * Leaves(T);
    SumSetAdd(seen, n, AtDepth(T, 0, TooDeep(top)));
  }

  lemma PassOneLeaf(seen: set<nat>, T: HTree, top: nat, f: nat -> nat, xb: nat -> nat, sg: nat -> int,
                    c: seq<nat>, overflow: nat, opt0: nat, opt: nat, stat0: nat, stat: nat, n: nat, bits: nat)
    requires PassOne(seen, T, top, f, xb, sg, c, overflow, opt0, opt, stat0, stat)
    requires n !in seen && n in Leaves(T) && bits == Clamped(T, top)(n) < 16
    ensures PassOne(seen + {n}, T, top, f, xb, sg, c[bits := c[bits] + 1],
                    overflow + (if Depth(T, 0, n) > top then 1 else 0),
                    opt0, U32(opt + f(n) * (bits + xb(n))), stat0, U32(stat + sg(n)))
  {
    hide SumSet, Counted, Clamped;
    var before := seen * Leaves(T);
    assert (seen + {n}) * Leaves(T) == before + {n};
    CountedAdd(before, Clamped(T, top), c, n);
    SumSetAdd(seen, n, AtDepth(T, 0, TooDeep(top)));
    SumSetAdd(before, n, BitsFn(f, Clamped(T, top), xb));
    SumSetAdd(before, n, sg);
    U32Add(opt0 + SumSet(before, BitsFn(f, Clamped(T, top), xb)), f(n) * (bits + xb(n)));
    U32Add(stat0 + SumSet(before, sg), sg(n));
  }

  // Bits spent under the static tree, or nothing if there is none.
  ghost function StaticFn(stree: array?<CtData>, f: nat -> nat, xb: nat -> nat): nat -> int
    reads stree
  {
    if stree == null then (x: nat) => 0 else BitsFn(f, DlOf(stree[..]), xb)
  }

  // One run of gen_bitlen: the tree, its node list, the elements at the start,
  // the maximal length, frequencies, extra bits, static costs, and the totals
  // at the start.
  datatype Run = Run(T: HTree, elems: nat, maxCode: nat, hs: seq<nat>, t0: seq<CtData>, top: nat,
                     f: nat -> nat, xb: nat -> nat, sg: nat -> int, opt0: nat, stat0: nat)

  ghost predicate ValidRun(r: Run)
  {
    && 1 <= r.top <= 15
    && r.opt0 < 0x1_0000_0000 && r.stat0 < 0x1_0000_0000
    && TreeList(r.hs, r.T, r.t0)
    && WellFormed(r.T) && Numbered(r.T, r.elems) && r.T.Node?
    && r.maxCode < r.elems
    && (forall x :: x in Leaves(r.T) ==> x <= r.maxCode && x < |r.t0| && r.f(x) == r.t0[x].fc)
  }

  ghost predicate AfterNodes(r: Run, i: nat, t: seq<CtData>, c: seq<nat>, overflow: nat, opt: nat, stat: nat)
  {
    && i <= |r.hs|
    && opt < 0x1_0000_0000 && stat < 0x1_0000_0000
    && Descended(r.t0, t, r.hs, i, Clamped(r.T, r.top))
    && PassOne(Seen(r.hs, i), r.T, r.top, r.f, r.xb, r.sg, c, overflow, r.opt0, opt, r.stat0, stat)
  }

  lemma RunStart(r: Run, c: seq<nat>)
    requires ValidRun(r) && |c| == 16 && forall b :: 0 <= b < 16 ==> c[b] == 0
    ensures |r.hs| >= 1 && r.hs[0] < |r.t0|
    ensures AfterNodes(r, 1, r.t0[r.hs[0] := r.t0[r.hs[0]].(dl := 0)], c, 0, r.opt0, r.stat0)
  {
    hide SumSet, Counted, Descended, PassOne, Clamped;
    DescendRoot(r.t0, r.hs, r.T, r.top);
    PassOneStart(r.T, r.top, r.f, r.xb, r.sg, c, r.opt0, r.stat0);
    SeenFirst(r.hs, r.T, r.t0);
  }

  lemma RunNode(r: Run, i: nat, t: seq<CtData>, c: seq<nat>, overflow: nat, opt: nat, stat: nat)
    requires ValidRun(r) && 1 <= i < |r.hs| && AfterNodes(r, i, t, c, overflow, opt, stat)
    ensures r.hs[i] < |t| && t[r.hs[i]].dl < |t|
    ensures Clamped(r.T, r.top)(r.hs[i]) == Min(t[t[r.hs[i]].dl].dl + 1, r.top)
    ensures Depth(r.T, 0, r.hs[i]) > r.top <==> t[t[r.hs[i]].dl].dl + 1 > r.top
    ensures r.hs[i] in Leaves(r.T) <==> r.hs[i] <= r.maxCode
  {
    hide SumSet, Counted, PassOne, Descended, TreeList, WellFormed, Numbered, Leaves, Ids, Depth;
    LengthFromDad(r.t0, t, r.hs, i, r.T, r.top);
    LeafTest(r.T, r.elems, r.maxCode, r.hs[i]);
  }

  lemma RunInner(r: Run, i: nat, t: seq<CtData>, c: seq<nat>, overflow: nat, opt: nat, stat: nat, bits: nat)
    requires ValidRun(r) && 1 <= i < |r.hs| && AfterNodes(r, i, t, c, overflow, opt, stat)
    requires bits == Clamped(r.T, r.top)(r.hs[i]) && r.hs[i] !in Leaves(r.T)
    ensures r.hs[i] < |t|
    ensures AfterNodes(r, i + 1, t[r.hs[i] := t[r.hs[i]].(dl := bits)], c,
                       overflow + (if Depth(r.T, 0, r.hs[i]) > r.top then 1 else 0), opt, stat)
  {
    hide SumSet, Counted, PassOne, Clamped, Descended;
    RunIndex(r, i, t, c, overflow, opt, stat);
    SeenNext(r.hs, i);
    DescendStep(r.t0, t, r.hs, i, Clamped(r.T, r.top), bits);
    PassOneInner(Seen(r.hs, i), r.T, r.top, r.f, r.xb, r.sg, c, overflow, r.opt0, opt, r.stat0, stat, r.hs[i]);
  }

  lemma RunLeaf(r: Run, i: nat, t: seq<CtData>, c: seq<nat>, overflow: nat, opt: nat, stat: nat, bits: nat)
    requires ValidRun(r) && 1 <= i < |r.hs| && AfterNodes(r, i, t, c, overflow, opt, stat)
    requires bits == Clamped(r.T, r.top)(r.hs[i]) && r.hs[i] in Leaves(r.T)
    ensures r.hs[i] < |t| && bits < |c| && r.f(r.hs[i]) == t[r.hs[i]].fc
    ensures AfterNodes(r, i + 1, t[r.hs[i] := t[r.hs[i]].(dl := bits)], c[bits := c[bits] + 1],
                       overflow + (if Depth(r.T, 0, r.hs[i]) > r.top then 1 else 0),
                       U32(opt + r.f(r.hs[i]) * (bits + r.xb(r.hs[i]))), U32(stat + r.sg(r.hs[i])))
  {
    hide SumSet, Counted, PassOne, Clamped, Descended, WellFormed, Numbered, Leaves, Ids, Depth, Seen;
    RunIndex(r, i, t, c, overflow, opt, stat);
    SeenNext(r.hs, i);
    assert bits <= r.top by { ClampedBound(r.T, r.top, r.hs[i]); }
    DescendStep(r.t0, t, r.hs, i, Clamped(r.T, r.top), bits);
    PassOneLeaf(Seen(r.hs, i), r.T, r.top, r.f, r.xb, r.sg, c, overflow, r.opt0, opt, r.stat0, stat, r.hs[i], bits);
  }

  lemma ClampedBound(T: HTree, top: nat, n: nat)
    ensures Clamped(T, top)(n) <= top
  {
  }

  lemma RunIndex(r: Run, i: nat, t: seq<CtData>, c: seq<nat>, overflow: nat, opt: nat, stat: nat)
    requires ValidRun(r) && i < |r.hs| && AfterNodes(r, i, t, c, overflow, opt, stat)
    ensures |c| == 16 && |t| == |r.t0| && r.hs[i] < |t| && t[r.hs[i]].fc == r.t0[r.hs[i]].fc
  {
    hide SumSet, Counted;
  }

  // The parameters of the tree descriptor agree with the run.
  ghost predicate Describes(b: Builder, stree: array?<CtData>, extra: seq<nat>, base: nat, maxCode: nat,
                            maxLength: nat, r: Run)
    reads b, b.heap, stree
  {
    && b.Valid() && 0 < b.heapMax < HEAP_SIZE && r.hs == b.heap[b.heapMax..]
    && maxLength == r.top && maxCode == r.maxCode && r.maxCode < base + |extra|
    && r.xb == XbitsFn(extra, base) && r.sg == StaticFn(stree, r.f, r.xb)
    && (stree != null ==> r.maxCode < stree.Length)
  }

  // One node of the first pass.
  method PlaceNode(b: Builder, tree: array<CtData>, stree: array?<CtData>, extra: seq<nat>, base: nat,
                   maxCode: nat, maxLength: nat, h: nat, over: nat, ghost r: Run)
    returns (overflow: nat)
    requires Describes(b, stree, extra, base, maxCode, maxLength, r) && ValidRun(r) && stree != tree
    requires b.heapMax + 1 <= h < HEAP_SIZE
    requires AfterNodes(r, h - b.heapMax, tree[..], b.blCount[..], over, b.optLen, b.staticLen)
    modifies b`optLen, b`staticLen, b.blCount, tree
    ensures AfterNodes(r, h + 1 - b.heapMax, tree[..], b.blCount[..], overflow, b.optLen, b.staticLen)
  {
    hide AfterNodes, ValidRun, BitsFn, DlOf, Clamped, SumSet, U32;
    ghost var i, t, c := h - b.heapMax, tree[..], b.blCount[..];
    var n := b.heap[h];
    assert n == r.hs[i];
    RunNode(r, i, t, c, over, b.optLen, b.staticLen);
    var bits := tree[tree[n].dl].dl + 1;
    overflow := over;
    if bits > maxLength {
      bits := maxLength;
      overflow := overflow + 1;
    }
    if n > maxCode {
      RunInner(r, i, t, c, over, b.optLen, b.staticLen, bits);
      tree[n] := tree[n].(dl := bits);
      assert tree[..] == t[n := t[n].(dl := bits)];
      return;
    }
    RunLeaf(r, i, t, c, over, b.optLen, b.staticLen, bits);
    tree[n] := tree[n].(dl := bits);
    b.blCount[bits] := b.blCount[bits] + 1;
    if stree == null {
      StatInRange(r, i, t, c, over, b.optLen, b.staticLen);
    }
    AddCost(b, stree, extra, base, n, tree[n].fc, bits, r);
    assert tree[..] == t[n := t[n].(dl := bits)];
    assert b.blCount[..] == c[bits := c[bits] + 1];
  }

  // Count the bits for all occurrences of the symbol `n`.
  method AddCost(b: Builder, stree: array?<CtData>, extra: seq<nat>, base: nat, n: nat, f: nat, bits: nat, ghost r: Run)
    requires n < base + |extra| && f == r.f(n) && (stree != null ==> n < stree.Length)
    requires r.xb == XbitsFn(extra, base) && r.sg == StaticFn(stree, r.f, r.xb)
    requires stree == null ==> b.staticLen < 0x1_0000_0000
    modifies b`optLen, b`staticLen
    ensures b.optLen == U32(old(b.optLen) + f * (bits + r.xb(n)))
    ensures b.staticLen == U32(old(b.staticLen) + r.sg(n))
  {
    hide U32;
    var xbits := if n >= base then extra[n - base] else 0;
    assert xbits == r.xb(n);
    b.optLen := U32(b.optLen + f * (bits + xbits));
    if stree != null {
      assert r.sg(n) == f * (stree[n].dl + xbits) by { StaticValue(stree[..], r.f, r.xb, n); }
      b.staticLen := U32(b.staticLen + f * (stree[n].dl + xbits));
    } else {
      assert r.sg(n) == 0;
      InU32(b.staticLen);
    }
  }

  lemma InU32(x: nat)
    requires x < 0x1_0000_0000
    ensures U32(x) == x
  {
  }

  lemma StaticValue(st: seq<CtData>, f: nat -> nat, xb: nat -> nat, n: nat)
    requires n < |st|
    ensures BitsFn(f, DlOf(st), xb)(n) == f(n) * (st[n].dl + xb(n))
  {
  }

  lemma StatInRange(r: Run, i: nat, t: seq<CtData>, c: seq<nat>, overflow: nat, opt: nat, stat: nat)
    requires AfterNodes(r, i, t, c, overflow, opt, stat)
    ensures U32(stat) == stat
  {
  }

  method FirstPass(b: Builder, tree: array<CtData>, stree: array?<CtData>, extra: seq<nat>, base: nat,
                   maxCode: nat, maxLength: nat, ghost r: Run)
    returns (overflow: nat)
    requires Describes(b, stree, extra, base, maxCode, maxLength, r) && ValidRun(r) && stree != tree
    requires r.t0 == tree[..] && r.opt0 == b.optLen && r.stat0 == b.staticLen
    modifies b`optLen, b`staticLen, b.blCount, tree
    ensures AfterNodes(r, |r.hs|, tree[..], b.blCount[..], overflow, b.optLen, b.staticLen)
  {
    hide AfterNodes, ValidRun, BitsFn, DlOf, SumSet, XbitsFn;
    ClearCounts(b.blCount);
    RunStart(r, b.blCount[..]);
    tree[b.heap[b.heapMax]] := tree[b.heap[b.heapMax]].(dl := 0);
    assert tree[..] == r.t0[r.hs[0] := r.t0[r.hs[0]].(dl := 0)];
    overflow := 0;
    var h := b.heapMax + 1;
    while h < HEAP_SIZE
      invariant b.heapMax + 1 <= h <= HEAP_SIZE
      invariant Describes(b, stree, extra, base, maxCode, maxLength, r)
      invariant AfterNodes(r, h - b.heapMax, tree[..], b.blCount[..], overflow, b.optLen, b.staticLen)
    {
      overflow := PlaceNode(b, tree, stree, extra, base, maxCode, maxLength, h, overflow, r);
      h := h + 1;
    }
  }

  method ClearCounts(c: array<nat>)
    modifies c
    ensures forall i :: 0 <= i < c.Length ==> c[i] == 0
  {
    var i := 0;
    while i < c.Length
      invariant 0 <= i <= c.Length
      invariant forall k :: 0 <= k < i ==> c[k] == 0
    {
      c[i] := 0;
      i := i + 1;
    }
  }

  lemma DescendRoot(t0: seq<CtData>, hs: seq<nat>, T: HTree, top: nat)
    requires TreeList(hs, T, t0)
    ensures Descended(t0, t0[hs[0] := t0[hs[0]].(dl := 0)], hs, 1, Clamped(T, top))
  {
    assert hs[0] in hs;
    assert forall k :: 1 <= k < |hs| ==> hs[k] != hs[0];
  }

  lemma SeenFirst(hs: seq<nat>, T: HTree, t: seq<CtData>)
    requires TreeList(hs, T, t)
    ensures Seen(hs, 1) == {T.id}
  {
  }

  lemma LeafTest(T: HTree, elems: nat, maxCode: nat, n: nat)
    requires Numbered(T, elems) && maxCode < elems && n in Ids(T)
    requires forall x :: x in Leaves(T) ==> x <= maxCode
    ensures n in Leaves(T) <==> n <= maxCode
  {
    LeavesAreSmall(T, elems);
  }
}
