/** The heap operations and the merging loop of build_tree. */
module HeapMerge {
  import opened Arith
  import opened Codes
  import opened Heap
  import opened HuffmanTree
  import opened Optimal
  import opened Forest
  import opened Merging
  import opened MergeEnds

  class Builder {
    const heap: array<nat>       // heap[1..heapLen] is the heap, heap[heapMax..] the nodes taken out
    const depth: array<nat>
    const blCount: array<nat>
    var heapLen: nat
    var heapMax: nat
    var optLen: nat
    var staticLen: nat

    ghost predicate Valid()
    {
      && heap.Length == HEAP_SIZE && depth.Length == HEAP_SIZE && blCount.Length == 16
      && heap != depth && heap != blCount && depth != blCount
    }

    constructor ()
      ensures Valid() && fresh(heap) && fresh(depth) && fresh(blCount)
      ensures forall i :: 0 <= i < 16 ==> blCount[i] == 0
      ensures optLen == 0 && staticLen == 0
    {
      heap := new nat[HEAP_SIZE];
      depth := new nat[HEAP_SIZE];
      blCount := new nat[16](_ => 0);
      heapLen, heapMax, optLen, staticLen := 0, 0, 0, 0;
    }

    // The state of the merging loop for the forest `F`.
    ghost predicate Merges(tree: array<CtData>, F: Forest, symbols: set<nat>, f: nat -> nat, elems: nat, node: nat)
      reads this, heap, depth, tree
    {
      MergeInv(heap[..], heapLen, heapMax, tree[..], depth[..], F, symbols, f, elems, node)
    }

    // PQREMOVE: take the least frequent node out of the heap.
    method PqRemove(tree: array<CtData>, ghost active: set<nat>) returns (top: nat)
      requires Valid() && heapLen >= 2
      requires HeapHolds(heap[..], heapLen, active, tree[..], depth[..])
      modifies this`heapLen, heap
      ensures heapLen == old(heapLen) - 1
      ensures top == old(heap[1])
      ensures heap[old(heapLen) + 1..] == old(heap[heapLen + 1..])
      ensures HeapHolds(heap[..], heapLen, active - {top}, tree[..], depth[..])
    {
      hide Ordered, InRange, HeapHolds, SamePlaces;
      ghost var t, dep, hp0, len := tree[..], depth[..], heap[..], heapLen;
      HeapInRange(hp0, heapLen, active, t, dep);
      top := heap[1];
      RemoveTop(hp0, heapLen, active, t, dep);
      heap[1] := heap[heapLen];
      heapLen := heapLen - 1;
      ghost var hp := heap[..];
      assert hp == hp0[1 := hp0[len]];
      PqDownHeap(heap, heapLen, tree, depth, 1);
      Settle(hp, heap[..], heapLen, active - {top}, t, dep);
      TailKept(heap[..], hp, hp0, len);
      assert heap[len + 1..] == heap[..][len + 1..] && old(heap[heapLen + 1..]) == hp0[len + 1..];
    }

    // The two least frequent nodes; the second one stays on top of the heap.
    method TakeTwo(tree: array<CtData>, ghost F: Forest) returns (n: nat, m: nat)
      requires Valid() && heapLen >= 2
      requires HeapHolds(heap[..], heapLen, F.trees.Keys, tree[..], depth[..])
      modifies this`heapLen, heap
      ensures heapLen == old(heapLen) - 1
      ensures heap[old(heapLen) + 1..] == old(heap[heapLen + 1..])
      ensures Lightest(F, tree[..], n, m) && m == heap[1]
      ensures HeapHolds(heap[..], heapLen, F.trees.Keys - {n}, tree[..], depth[..])
    {
      hide HeapHolds;
      ghost var active := F.trees.Keys;
      HeapInRange(heap[..], heapLen, active, tree[..], depth[..]);
      TopIsLightest(heap[..], heapLen, active, tree[..], depth[..]);
      n := PqRemove(tree, active);
      HeapInRange(heap[..], heapLen, active - {n}, tree[..], depth[..]);
      TopIsLightest(heap[..], heapLen, active - {n}, tree[..], depth[..]);
      m := heap[1];
    }

    // Keep the nodes taken out sorted by frequency.
    method KeepTaken(n: nat, m: nat)
      requires Valid() && heapLen + 2 < heapMax <= heap.Length
      modifies this`heapMax, heap
      ensures heapMax == old(heapMax) - 2
      ensures heap[heapMax..] == [m, n] + old(heap[heapMax..])
      ensures heap[..heapLen + 1] == old(heap[..heapLen + 1])
    {
      heapMax := heapMax - 1;
      heap[heapMax] := n;
      heapMax := heapMax - 1;
      heap[heapMax] := m;
    }

    method NewFather(tree: array<CtData>, node: nat, n: nat, m: nat)
      requires Valid() && node < tree.Length && node < depth.Length && n < node && m < node && n != m
      modifies depth, tree
      ensures tree[..] == old(Merged(tree[..], n, m, node))
      ensures forall v :: 0 <= v < depth.Length && v != node ==> depth[v] == old(depth[v])
    {
      hide Merged;
      ghost var t := tree[..];
      tree[node] := tree[node].(fc := U16(tree[n].fc + tree[m].fc));
      depth[node] := (Max(depth[n], depth[m]) + 1) % 256;
      tree[m] := tree[m].(dl := node);
      tree[n] := tree[n].(dl := node);
      MergedIs(t, tree[..], n, m, node);
    }

    // The father replaces the second node on top of the heap.
    method InsertFather(tree: array<CtData>, node: nat, ghost active: set<nat>, ghost hp: seq<nat>,
                        ghost t: seq<CtData>, ghost dep: seq<nat>)
      requires Valid() && 1 <= heapLen && HeapHolds(hp, heapLen, active, t, dep) && node !in active
      requires |hp| == heap.Length && heap[..heapLen + 1] == hp[..heapLen + 1]
      requires |t| == tree.Length && |dep| == depth.Length && node < |t| && node < |dep|
      requires forall v :: 0 <= v < |t| && v != node ==> tree[v].fc == t[v].fc
      requires forall v :: 0 <= v < |dep| && v != node ==> depth[v] == dep[v]
      modifies heap
      ensures heap[heapLen + 1..] == old(heap[heapLen + 1..])
      ensures HeapHolds(heap[..], heapLen, active - {hp[1]} + {node}, tree[..], depth[..])
    {
      hide HeapHolds, Ordered;
      HeapInRange(hp, heapLen, active, t, dep);
      assert heap[..][..heapLen + 1] == heap[..heapLen + 1];
      SamePrefix(heap[..], hp, heapLen);
      heap[1] := node;
      PrefixUpdated(hp, heap[..], heapLen, node);
      ReplaceTop(hp, heap[..], heapLen, active, t, dep, node, tree[..], depth[..]);
      ghost var hp2 := heap[..];
      PqDownHeap(heap, heapLen, tree, depth, 1);
      Settle(hp2, heap[..], heapLen, active - {hp[1]} + {node}, tree[..], depth[..]);
      TailSame(heap[..], hp2, heapLen);
    }

    // Combine the two least frequent nodes.
    method MergeStep(tree: array<CtData>, node: nat, ghost elems: nat, ghost F: Forest, ghost symbols: set<nat>,
                     ghost f: nat -> nat)
      returns (ghost G: Forest)
      requires Valid() && heapLen >= 2
      requires Merges(tree, F, symbols, f, elems, node) && GrowInv(F, f)
      modifies this`heapLen, this`heapMax, heap, depth, tree
      ensures Merges(tree, G, symbols, f, elems, node + 1) && GrowInv(G, f)
      ensures heapLen == old(heapLen) - 1
      ensures LeavesKept(old(tree[..]), tree[..], elems, symbols)
    {
      hide HeapHolds, ForestInv, CostInv, Merged, Join, SumSet, AsInt, Lightest, LeavesKept, GrowInv;
      ghost var t, dep, R := tree[..], depth[..], heap[heapMax..];
      LayoutRoom(heap[..], heapLen, heapMax, t, dep, symbols, elems, node);
      ghost var tail := heap[heapLen + 1..];
      TailFrom(heap[..], heapLen + 1, heapMax);
      var n, m := TakeTwo(tree, F);
      assert tree[..] == t && depth[..] == dep;
      TailFrom(heap[..], heapLen + 2, heapMax);
      assert heap[heapMax..] == R;
      ForestStep(F, R, t, symbols, f, elems, node, n, m);
      CostStepOf(F, R, t, symbols, f, elems, node, n, m);
      GrowStep(F, R, t, symbols, f, elems, node, n, m);
      MergeKeeps(F, R, t, symbols, f, elems, node, n, m);
      LightestTwo(F, t, n, m);
      G := Join(F, n, m, node);
      Replace(tree, node, n, m, F.trees.Keys - {n});
      assert F.trees.Keys - {n} - {m} + {node} == G.trees.Keys;
    }

    // The father takes the place of its two sons, of which `m` is still in the heap.
    method Replace(tree: array<CtData>, node: nat, n: nat, m: nat, ghost active: set<nat>)
      requires Valid() && 1 <= heapLen && heapLen + 2 < heapMax <= heap.Length
      requires node < tree.Length && node < depth.Length && n < node && m < node && n != m && node !in active
      requires HeapHolds(heap[..], heapLen, active, tree[..], depth[..]) && m == heap[1]
      requires tree[n].fc + tree[m].fc < 0x1_0000
      modifies this`heapMax, heap, depth, tree
      ensures tree[..] == old(Merged(tree[..], n, m, node)) && heapMax == old(heapMax) - 2
      ensures heap[heapMax..] == [m, n] + old(heap[heapMax..])
      ensures HeapHolds(heap[..], heapLen, active - {m} + {node}, tree[..], depth[..])
    {
      hide HeapHolds, Merged;
      ghost var t, dep, hp := tree[..], depth[..], heap[..];
      KeepTaken(n, m);
      NewFather(tree, node, n, m);
      MergedFields(t, n, m, node);
      ghost var R := heap[heapMax..];
      TailFrom(heap[..], heapLen + 1, heapMax);
      InsertFather(tree, node, active, hp, t, dep);
      TailFrom(heap[..], heapLen + 1, heapMax);
      assert heap[heapMax..] == R;
    }

    // Establish sub-heaps of increasing size.
    method Heapify(tree: array<CtData>, ghost symbols: set<nat>)
      requires Valid() && InRange(heap[..], heapLen, tree[..], depth[..])
      requires multiset(heap[1..heapLen + 1]) == multiset(symbols)
      modifies heap
      ensures HeapHolds(heap[..], heapLen, symbols, tree[..], depth[..])
    {
      hide Ordered, SamePlaces, HeapHolds;
      ghost var t, dep := tree[..], depth[..];
      ghost var start := heap[..];
      SamePlacesSelf(start, heapLen);
      assert heap[..][1..heapLen + 1] == heap[1..heapLen + 1];
      HalfIsHeap(heap[..], heapLen, t, dep);
      var n := heapLen / 2;
      while n >= 1
        invariant 0 <= n <= heapLen / 2
        invariant tree[..] == t && depth[..] == dep
        invariant InRange(heap[..], heapLen, t, dep) && Ordered(heap[..], heapLen, t, dep, n + 1)
        invariant SamePlaces(heap[..], start, heapLen)
      {
        ghost var before := heap[..];
        PqDownHeap(heap, heapLen, tree, depth, n);
        SamePlacesTrans(heap[..], before, start, heapLen);
        n := n - 1;
      }
      Settle(start, heap[..], heapLen, symbols, t, dep);
    }

    // Merge until one node is left.
    method MergeDown(tree: array<CtData>, elems: nat, ghost symbols: set<nat>) returns (ghost F: Forest, node: nat)
      requires Valid() && tree.Length == 2 * elems + 1 && elems <= L_CODES
      requires 2 <= heapLen == |symbols| && heapMax == HEAP_SIZE
      requires forall n :: n in symbols ==> n < elems && tree[n].fc > 0
      requires |symbols| <= elems
      requires HeapHolds(heap[..], heapLen, symbols, tree[..], depth[..])
      requires SumSet(symbols, AsInt(FreqOf(tree[..]))) < 0x1_0000
      modifies this`heapLen, this`heapMax, heap, depth, tree
      ensures heapLen == 1 && Merges(tree, F, symbols, old(FreqOf(tree[..])), elems, node) && GrowInv(F, old(FreqOf(tree[..])))
      ensures LeavesKept(old(tree[..]), tree[..], elems, symbols)
    {
      hide HeapHolds, ForestInv, CostInv, SumSet, AsInt, FreqOf, LeavesKept, GrowInv;
      ghost var f := FreqOf(tree[..]);
      ghost var t0 := tree[..];
      F := LeafForest(symbols);
      StartForest(symbols, tree[..], elems);
      StartGrow(symbols, tree[..]);
      assert heap[..][heapMax..] == [];
      KeptSelf(t0, elems, symbols);
      node := elems;
      while true
        invariant heapLen >= 2
        invariant Merges(tree, F, symbols, f, elems, node) && GrowInv(F, f)
        invariant LeavesKept(t0, tree[..], elems, symbols)
        decreases heapLen
      {
        ghost var t := tree[..];
        F := MergeStep(tree, node, elems, F, symbols, f);
        KeptTrans(t0, t, tree[..], elems, symbols);
        node := node + 1;
        if heapLen < 2 {
          break;
        }
      }
    }

    // The merging as a whole; the nodes are then all in heap[heapMax..].
    method MergeAll(tree: array<CtData>, elems: nat, ghost symbols: set<nat>) returns (ghost T: HTree)
      requires Valid() && tree.Length == 2 * elems + 1 && elems <= L_CODES
      requires 2 <= heapLen == |symbols| && heapMax == HEAP_SIZE
      requires forall n :: n in symbols ==> n < elems && tree[n].fc > 0
      requires |symbols| <= elems
      requires HeapHolds(heap[..], heapLen, symbols, tree[..], depth[..])
      requires SumSet(symbols, AsInt(FreqOf(tree[..]))) < 0x1_0000
      modifies this`heapLen, this`heapMax, heap, depth, tree
      ensures 0 < heapMax < HEAP_SIZE
      ensures TreeList(heap[heapMax..], T, tree[..])
      ensures WellFormed(T) && Numbered(T, elems) && Leaves(T) == symbols && Grown(T, old(FreqOf(tree[..])))
      ensures CostIsMinimal(symbols, old(FreqOf(tree[..])), HuffmanTree.Cost(T, old(FreqOf(tree[..]))))
      ensures LeavesKept(old(tree[..]), tree[..], elems, symbols)
    {
      hide HeapHolds, ForestInv, CostInv, SumSet, AsInt, FreqOf, LeavesKept, TreeList, CostIsMinimal, Leaves, Cost,
           GrowInv, Grown;
      ghost var f := FreqOf(tree[..]);
      ghost var F;
      var node;
      F, node := MergeDown(tree, elems, symbols);
      HeapInRange(heap[..], heapLen, F.trees.Keys, tree[..], depth[..]);
      ghost var r := heap[1];
      ghost var R := heap[heapMax..];
      OnlyOne(F.trees.Keys, r);
      T := F.trees[r];
      FinishList(F, R, tree[..], symbols, f, elems, node, r);
      FinishTree(F, R, tree[..], symbols, f, elems, node, r);
      FinishCost(F, tree[..], symbols, f, r);
      FinishGrow(F, f, r);
      heapMax := heapMax - 1;
      heap[heapMax] := heap[1];
      assert heap[heapMax..] == [r] + R;
    }
  }

  lemma OnlyOne(s: set<nat>, r: nat)
    requires |s| == 1 && r in s
    ensures s == {r}
  {
    assert |s - {r}| == 0;
  }

  lemma HalfIsHeap(hp: seq<nat>, len: nat, t: seq<CtData>, depth: seq<nat>)
    requires InRange(hp, len, t, depth)
    ensures Ordered(hp, len, t, depth, len / 2 + 1)
  {
  }

  lemma KeptSelf(t: seq<CtData>, elems: nat, symbols: set<nat>)
    ensures LeavesKept(t, t, elems, symbols)
  {
  }

  lemma KeptTrans(a: seq<CtData>, b: seq<CtData>, c: seq<CtData>, elems: nat, symbols: set<nat>)
    requires LeavesKept(a, b, elems, symbols) && LeavesKept(b, c, elems, symbols)
    ensures LeavesKept(a, c, elems, symbols)
  {
  }

  // Frequencies of symbols do not change, and unused symbols are left alone.
  ghost predicate LeavesKept(t: seq<CtData>, t': seq<CtData>, elems: nat, symbols: set<nat>)
  {
    && |t| == |t'|
    && (forall i :: 0 <= i < elems && i < |t| ==> t'[i].fc == t[i].fc)
    && (forall i :: 0 <= i < elems && i < |t| && i !in symbols ==> t'[i] == t[i])
  }

  lemma MergeKeeps(F: Forest, R: seq<nat>, t: seq<CtData>, symbols: set<nat>, f: nat -> nat,
                   elems: nat, node: nat, n: nat, m: nat)
    requires ForestInv(F, R, t, symbols, f, elems, node) && Lightest(F, t, n, m)
    requires elems <= node < |t| && n < node && m < node && t[n].fc + t[m].fc < 0x1_0000
    ensures LeavesKept(t, Merged(t, n, m, node), elems, symbols)
  {
    RootsAreNodes(F, elems, node);
    MergedFields(t, n, m, node);
    assert n < elems ==> n in symbols;
    assert m < elems ==> m in symbols;
  }

  lemma LightestTwo(F: Forest, t: seq<CtData>, n: nat, m: nat)
    requires Lightest(F, t, n, m)
    ensures n in F.trees && m in F.trees && n != m && n < |t| && m < |t|
  {
  }

  lemma TailFrom(hp: seq<nat>, i: nat, j: nat)
    requires i <= j <= |hp|
    ensures hp[j..] == hp[i..][j - i..]
  {
  }

  lemma SamePrefix(a: seq<nat>, b: seq<nat>, len: nat)
    requires len < |a| == |b| && a[..len + 1] == b[..len + 1]
    ensures forall i :: 0 <= i <= len ==> a[i] == b[i]
  {
    forall i | 0 <= i <= len
      ensures a[i] == b[i]
    {
      assert a[i] == a[..len + 1][i];
    }
  }

  lemma PrefixUpdated(hp: seq<nat>, hp': seq<nat>, len: nat, node: nat)
    requires 1 <= len < |hp| && |hp'| == |hp| && hp'[1] == node
    requires forall i :: 0 <= i <= len && i != 1 ==> hp'[i] == hp[i]
    ensures hp'[..len + 1] == hp[1 := node][..len + 1]
  {
  }

  lemma TailKept(a: seq<nat>, b: seq<nat>, c: seq<nat>, len: nat)
    requires 2 <= len < |c| && SamePlaces(a, b, len - 1) && b == c[1 := c[len]]
    ensures |a| == |c| && a[len + 1..] == c[len + 1..]
  {
    hide SamePlaces;
    TailSame(a, b, len - 1);
  }

  lemma TailSame(a: seq<nat>, b: seq<nat>, len: nat)
    requires SamePlaces(a, b, len)
    ensures |a| == |b| && forall i :: len < i < |a| ==> a[i] == b[i]
  {
    forall i | len < i < |a|
      ensures a[i] == b[i]
    {
      assert a[i] == a[len + 1..][i - len - 1];
    }
  }

  lemma HeapInRange(hp: seq<nat>, len: nat, active: set<nat>, t: seq<CtData>, depth: seq<nat>)
    requires HeapHolds(hp, len, active, t, depth)
    ensures len < |hp| && |active| == len
    ensures forall i :: 1 <= i <= len ==> hp[i] < |t| && hp[i] < |depth| && hp[i] in active
  {
    Members(hp, len, active);
  }

  lemma LayoutRoom(hp: seq<nat>, heapLen: nat, heapMax: nat, t: seq<CtData>, depth: seq<nat>,
                   symbols: set<nat>, elems: nat, node: nat)
    requires Layout(hp, heapLen, heapMax, t, depth, symbols, elems, node) && heapLen >= 2
    ensures heapLen + 2 < heapMax <= |hp| && node < |t| && node < |depth| && node + 1 < |t|
  {
  }

  lemma MergedIs(t: seq<CtData>, t': seq<CtData>, n: nat, m: nat, node: nat)
    requires |t'| == |t| && n < |t| && m < |t| && node < |t| && n != node && m != node && n != m
    requires t'[node] == t[node].(fc := U16(t[n].fc + t[m].fc))
    requires t'[n] == t[n].(dl := node) && t'[m] == t[m].(dl := node)
    requires forall i :: 0 <= i < |t| && i != n && i != m && i != node ==> t'[i] == t[i]
    ensures t' == Merged(t, n, m, node)
  {
  }

  lemma CostStepOf(F: Forest, R: seq<nat>, t: seq<CtData>, symbols: set<nat>, f: nat -> nat,
                   elems: nat, node: nat, n: nat, m: nat)
    requires ForestInv(F, R, t, symbols, f, elems, node) && CostInv(F, t, symbols, f)
    requires Lightest(F, t, n, m) && elems <= node < |t| && t[n].fc + t[m].fc < 0x1_0000
    ensures CostInv(Join(F, n, m, node), Merged(t, n, m, node), symbols, f)
  {
    hide CostInv, Join, Merged;
    CostStep(F, t, symbols, f, elems, node, n, m);
  }
}
