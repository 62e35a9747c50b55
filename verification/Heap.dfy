/** The priority queue of build_tree: a binary heap of node numbers, ordered by
    frequency with the subtree depth as tie breaker. */
module Heap {
  import opened Codes

  // The SMALLER macro, on the frequencies and depths of two nodes.
  predicate Lighter(freqN: nat, depthN: nat, freqM: nat, depthM: nat)
  {
    freqN < freqM || (freqN == freqM && depthN <= depthM)
  }

  ghost predicate Smaller(t: seq<CtData>, depth: seq<nat>, n: nat, m: nat)
    requires n < |t| && n < |depth| && m < |t| && m < |depth|
  {
    Lighter(t[n].fc, depth[n], t[m].fc, depth[m])
  }

  ghost predicate InRange(hp: seq<nat>, len: nat, t: seq<CtData>, depth: seq<nat>)
  {
    len < |hp| && forall i :: 1 <= i <= len ==> hp[i] < |t| && hp[i] < |depth|
  }

  // Every father from position `k` on is no larger than its sons.
  ghost predicate Ordered(hp: seq<nat>, len: nat, t: seq<CtData>, depth: seq<nat>, k: nat)
    requires InRange(hp, len, t, depth)
  {
    forall i :: 2 <= i <= len && k <= i / 2 ==> Smaller(t, depth, hp[i / 2], hp[i])
  }

  // As Ordered, but the node at `hole` may be too large for its sons; they are
  // still no smaller than its father.
  ghost predicate OrderedExcept(hp: seq<nat>, len: nat, t: seq<CtData>, depth: seq<nat>, k: nat, hole: nat)
    requires k >= 1 && InRange(hp, len, t, depth)
  {
    && (forall i :: 2 <= i <= len && k <= i / 2 && i / 2 != hole ==> Smaller(t, depth, hp[i / 2], hp[i]))
    && (forall i :: 2 <= i <= len && i / 2 == hole && k <= hole / 2 ==> Smaller(t, depth, hp[hole / 2], hp[i]))
  }

  ghost predicate SamePlaces(a: seq<nat>, b: seq<nat>, len: nat)
  {
    && |a| == |b| && len < |a|
    && multiset(a[1..len + 1]) == multiset(b[1..len + 1])
    && a[0] == b[0] && a[len + 1..] == b[len + 1..]
  }

  ghost function Swapped(s: seq<nat>, i: nat, j: nat): seq<nat>
    requires i < |s| && j < |s|
  {
    s[i := s[j]][j := s[i]]
  }

  lemma SwapSamePlaces(s: seq<nat>, len: nat, i: nat, j: nat)
    requires len < |s| && 1 <= i <= len && 1 <= j <= len
    ensures SamePlaces(Swapped(s, i, j), s, len)
  {
    var part := s[1..len + 1];
    assert Swapped(s, i, j)[1..len + 1] == part[i - 1 := part[j - 1]][j - 1 := part[i - 1]];
  }

  // Moving the hole to its smallest son `j` keeps the order elsewhere.
  lemma SiftStep(hp: seq<nat>, len: nat, t: seq<CtData>, depth: seq<nat>, k: nat, hole: nat, j: nat)
    requires k >= 1 && InRange(hp, len, t, depth) && OrderedExcept(hp, len, t, depth, k, hole)
    requires k <= hole && 2 <= j <= len && j / 2 == hole
    requires forall i :: 2 <= i <= len && i / 2 == hole ==> Smaller(t, depth, hp[j], hp[i])
    requires !Smaller(t, depth, hp[hole], hp[j])
    ensures InRange(Swapped(hp, hole, j), len, t, depth)
    ensures OrderedExcept(Swapped(hp, hole, j), len, t, depth, k, j)
  {
    var hp' := Swapped(hp, hole, j);
    forall i | 2 <= i <= len && k <= i / 2 && i / 2 != j
      ensures Smaller(t, depth, hp'[i / 2], hp'[i])
    {
      if i == hole {
        assert Smaller(t, depth, hp[hole / 2], hp[j]);
      }
    }
  }

  lemma SiftStart(hp: seq<nat>, len: nat, t: seq<CtData>, depth: seq<nat>, k: nat)
    requires k >= 1 && InRange(hp, len, t, depth) && Ordered(hp, len, t, depth, k + 1)
    ensures OrderedExcept(hp, len, t, depth, k, k)
  {
  }

  lemma SiftEnd(hp: seq<nat>, len: nat, t: seq<CtData>, depth: seq<nat>, k: nat, hole: nat)
    requires k >= 1 && InRange(hp, len, t, depth) && OrderedExcept(hp, len, t, depth, k, hole)
    requires k <= hole <= len
    requires forall i :: 2 <= i <= len && i / 2 == hole ==> Smaller(t, depth, hp[hole], hp[i])
    ensures Ordered(hp, len, t, depth, k)
  {
  }

  lemma LightEnough(hp: seq<nat>, len: nat, t: seq<CtData>, depth: seq<nat>, hole: nat, j: nat)
    requires InRange(hp, len, t, depth) && 1 <= hole <= len && 1 <= j <= len
    requires Lighter(t[hp[hole]].fc, depth[hp[hole]], t[hp[j]].fc, depth[hp[j]])
    requires forall i :: 2 <= i <= len && i / 2 == hole ==> Smaller(t, depth, hp[j], hp[i])
    ensures forall i :: 2 <= i <= len && i / 2 == hole ==> Smaller(t, depth, hp[hole], hp[i])
  {
  }

  lemma NotSmaller(t: seq<CtData>, depth: seq<nat>, n: nat, m: nat)
    requires n < |t| && n < |depth| && m < |t| && m < |depth|
    requires !Lighter(t[n].fc, depth[n], t[m].fc, depth[m])
    ensures !Smaller(t, depth, n, m)
  {
  }

  lemma SamePlacesSelf(a: seq<nat>, len: nat)
    requires len < |a|
    ensures SamePlaces(a, a, len)
  {
  }

  lemma SamePlacesTrans(a: seq<nat>, b: seq<nat>, c: seq<nat>, len: nat)
    requires SamePlaces(a, b, len) && SamePlaces(b, c, len)
    ensures SamePlaces(a, c, len)
  {
  }

  // Copying the son into the hole swaps it with the value kept aside.
  lemma HoleMoves(hp: seq<nat>, full: seq<nat>, len: nat, t: seq<CtData>, depth: seq<nat>, k: nat, j: nat, v: nat)
    requires InRange(hp, len, t, depth) && 1 <= k <= len && 1 <= j <= len && j != k
    requires full == hp[k := v]
    ensures InRange(hp[k := hp[j]], len, t, depth)
    ensures Swapped(full, k, j) == hp[k := hp[j]][j := v]
  {
  }

  // The smaller of the two sons of `k`.
  method SmallerSon(heap: array<nat>, heapLen: nat, tree: array<CtData>, depth: array<nat>, k: nat) returns (j: nat)
    requires InRange(heap[..], heapLen, tree[..], depth[..]) && 1 <= k && 2 * k <= heapLen
    ensures 2 <= j <= heapLen && j / 2 == k
    ensures forall i :: 2 <= i <= heapLen && i / 2 == k ==> Smaller(tree[..], depth[..], heap[j], heap[i])
  {
    j := 2 * k;
    if j < heapLen && Lighter(tree[heap[j + 1]].fc, depth[heap[j + 1]], tree[heap[j]].fc, depth[heap[j]]) {
      j := j + 1;
    }
  }

  method PqDownHeap(heap: array<nat>, heapLen: nat, tree: array<CtData>, depth: array<nat>, k0: nat)
    requires heap != depth && 1 <= k0 <= heapLen
    requires InRange(heap[..], heapLen, tree[..], depth[..])
    requires Ordered(heap[..], heapLen, tree[..], depth[..], k0 + 1)
    modifies heap
    ensures SamePlaces(heap[..], old(heap[..]), heapLen)
    ensures InRange(heap[..], heapLen, tree[..], depth[..])
    ensures Ordered(heap[..], heapLen, tree[..], depth[..], k0)
  {
    hide Ordered, OrderedExcept, SamePlaces, Smaller;
    ghost var t, dep := tree[..], depth[..];
    var v := heap[k0];
    var k, j := k0, 2 * k0;
    ghost var full := heap[..];    // the heap with `v` put back at `k`
    SiftStart(full, heapLen, t, dep, k0);
    SamePlacesSelf(full, heapLen);
    while j <= heapLen
      invariant j == 2 * k && k0 <= k <= heapLen
      invariant full == heap[..][k := v] && |full| == heap.Length
      invariant SamePlaces(full, old(heap[..]), heapLen)
      invariant InRange(full, heapLen, t, dep) && OrderedExcept(full, heapLen, t, dep, k0, k)
      invariant InRange(heap[..], heapLen, t, dep)
      decreases heapLen - k
    {
      assert tree[..] == t && depth[..] == dep;
      j := SmallerSon(heap, heapLen, tree, depth, k);
      assert forall i :: 1 <= i <= heapLen && i / 2 == k ==> full[i] == heap[i];
      if Lighter(tree[v].fc, depth[v], tree[heap[j]].fc, depth[heap[j]]) {
        LightEnough(full, heapLen, t, dep, k, j);
        SiftEnd(full, heapLen, t, dep, k0, k);
        break;
      }
      assert !Smaller(t, dep, full[k], full[j]) by { NotSmaller(t, dep, v, heap[j]); }
      SiftStep(full, heapLen, t, dep, k0, k, j);
      SwapSamePlaces(full, heapLen, k, j);
      SamePlacesTrans(Swapped(full, k, j), full, old(heap[..]), heapLen);
      HoleMoves(heap[..], full, heapLen, t, dep, k, j, v);
      heap[k] := heap[j];
      full := Swapped(full, k, j);
      k := j;
      j := 2 * j;
    }
    if 2 * k > heapLen {
      SiftEnd(full, heapLen, t, dep, k0, k);
    }
    heap[k] := v;
    assert heap[..] == full && tree[..] == t && depth[..] == dep;
  }

  // The root of a heap is its smallest element.
  lemma {:induction false} RootSmallest(hp: seq<nat>, len: nat, t: seq<CtData>, depth: seq<nat>, i: nat)
    requires InRange(hp, len, t, depth) && Ordered(hp, len, t, depth, 1)
    requires 1 <= i <= len
    ensures Smaller(t, depth, hp[1], hp[i])
    decreases i
  {
    if i > 1 {
      RootSmallest(hp, len, t, depth, i / 2);
    }
  }
}
