/** How the merging loop of build_tree starts and what it leaves behind. */
module MergeEnds {
  import opened Arith
  import opened Codes
  import opened HuffmanTree
  import opened Optimal
  import opened Forest
  import opened Merging

  // ---------- the start: every used symbol is a tree of its own ----------

  function LeafForest(symbols: set<nat>): Forest
  {
    Forest(map n | n in symbols :: Leaf(n), map n | n in symbols :: n)
  }

  lemma StartForest(symbols: set<nat>, t: seq<CtData>, elems: nat)
    requires forall n :: n in symbols ==> n < elems < |t|
    ensures LeafForest(symbols).trees.Keys == symbols
    ensures ForestInv(LeafForest(symbols), [], t, symbols, FreqOf(t), elems, elems)
    ensures CostInv(LeafForest(symbols), t, symbols, FreqOf(t))
  {
    hide Fits, TotalCost, SumSet;
    var F := LeafForest(symbols);
    var f := FreqOf(t);
    assert F.trees.Keys == symbols && F.root.Keys == symbols;
    forall v | v in symbols
      ensures F.trees[v] == Leaf(v)
    {
    }
    SumOfZeros(symbols, TreeCosts(F, f));
    ReachesSelf(symbols, f);
  }

  lemma StartGrow(symbols: set<nat>, t: seq<CtData>)
    requires forall n :: n in symbols ==> n < |t| && t[n].fc > 0
    ensures GrowInv(LeafForest(symbols), FreqOf(t))
  {
    var F, f := LeafForest(symbols), FreqOf(t);
    assert forall v :: v in F.trees ==> F.trees[v] == Leaf(v) && f(v) >= 1;
  }

  lemma {:induction false} SumOfZeros(s: set<nat>, g: nat -> int)
    requires forall v :: v in s ==> g(v) == 0
    ensures SumSet(s, g) == 0
    decreases |s|
  {
    if s != {} {
      var x :| x in s;
      SumSetRemove(s, x, g);
      SumOfZeros(s - {x}, g);
    }
  }

  // ---------- the end: one tree ----------

  // `hs` lists the nodes of `T`: the root first, every father before its sons,
  // frequencies never increasing, and the father links follow the tree.
  ghost predicate TreeList(hs: seq<nat>, T: HTree, t: seq<CtData>)
  {
    && |hs| >= 1 && hs[0] == T.id
    && (forall i, j :: 0 <= i < j < |hs| ==> hs[i] != hs[j])
    && (forall x :: x in Ids(T) <==> x in hs)
    && (forall i :: 0 <= i < |hs| ==> hs[i] < |t|)
    && (forall i :: 1 <= i < |hs| ==> t[hs[i]].dl == Dad(T, hs[i]) && t[hs[i]].dl in hs[..i])
    && (forall i, j :: 0 <= i < j < |hs| ==> t[hs[i]].fc >= t[hs[j]].fc)
  }

  ghost predicate IsLowerBound(symbols: set<nat>, f: nat -> nat, cost: int)
  {
    forall l: nat -> nat, top: nat :: Fits(symbols, l, top) ==> TotalCost(symbols, f, l) >= cost
  }

  // What every assignment of lengths that fits the code space costs at least.
  ghost function LowerBounds(symbols: set<nat>, f: nat -> nat): iset<int>
  {
    iset cost: int | IsLowerBound(symbols, f, cost)
  }

  // No assignment of lengths that fits the code space costs less.
  ghost predicate CostIsMinimal(symbols: set<nat>, f: nat -> nat, cost: int)
  {
    cost in LowerBounds(symbols, f)
  }

  lemma PrependOne(R: seq<nat>, r: nat)
    ensures forall i :: 0 <= i < |R| ==> ([r] + R)[i + 1] == R[i]
    ensures forall x :: x in [r] + R <==> x == r || x in R
  {
    forall x | x == r || x in R
      ensures x in [r] + R
    {
      if x == r {
        assert ([r] + R)[0] == x;
      } else {
        var i :| 0 <= i < |R| && R[i] == x;
        assert ([r] + R)[i + 1] == x;
      }
    }
  }

  lemma FinishList(F: Forest, R: seq<nat>, t: seq<CtData>, symbols: set<nat>, f: nat -> nat,
                   elems: nat, node: nat, r: nat)
    requires ForestInv(F, R, t, symbols, f, elems, node) && F.trees.Keys == {r}
    ensures TreeList([r] + R, F.trees[r], t)
  {
    hide Shape, Linked, Weighed, Covers, TakenOut, FathersFirst, ByFrequency, Ids, Dad;
    PrependOne(R, r);
    var hs, T := [r] + R, F.trees[r];
    assert r in F.trees.Keys;
    assert T.id == r by { RootId(F, elems, node, r); }
    forall x
      ensures x in Ids(T) <==> x in hs
    {
      FinishMember(F, R, t, symbols, f, elems, node, r, x);
    }
    forall i | 1 <= i < |hs|
      ensures hs[i] < |t| && t[hs[i]].dl == Dad(T, hs[i]) && t[hs[i]].dl in hs[..i]
    {
      FinishLink(F, R, t, symbols, f, elems, node, r, i - 1);
      assert hs[i] == R[i - 1] && hs[..i] == [r] + R[..i - 1];
      PrependOne(R[..i - 1], r);
    }
    FinishSorted(F.trees.Keys, R, t, r);
    FinishDistinct(F.trees.Keys, F.root.Keys, R, r);
  }

  lemma RootId(F: Forest, elems: nat, node: nat, r: nat)
    requires Shape(F, elems, node) && r in F.trees
    ensures F.trees[r].id == r
  {
  }

  lemma FinishMember(F: Forest, R: seq<nat>, t: seq<CtData>, symbols: set<nat>, f: nat -> nat,
                     elems: nat, node: nat, r: nat, x: nat)
    requires ForestInv(F, R, t, symbols, f, elems, node) && F.trees.Keys == {r}
    ensures x in Ids(F.trees[r]) <==> x == r || x in R
  {
    RootsAreNodes(F, elems, node);
    assert r in F.trees;
    assert forall y :: y in F.root ==> F.root[y] in F.trees && F.root[y] == r;
  }

  lemma FinishLink(F: Forest, R: seq<nat>, t: seq<CtData>, symbols: set<nat>, f: nat -> nat,
                   elems: nat, node: nat, r: nat, i: nat)
    requires ForestInv(F, R, t, symbols, f, elems, node) && F.trees.Keys == {r} && i < |R|
    ensures R[i] < |t| && t[R[i]].dl == Dad(F.trees[r], R[i])
    ensures t[R[i]].dl == r || t[R[i]].dl in R[..i]
  {
    assert R[i] in F.root && R[i] !in F.trees.Keys;
    assert F.root[R[i]] in F.trees.Keys;
  }

  lemma FinishSorted(active: set<nat>, R: seq<nat>, t: seq<CtData>, r: nat)
    requires ByFrequency(active, R, t) && r in active
    ensures forall i :: 0 <= i < |[r] + R| ==> ([r] + R)[i] < |t|
    ensures forall i, j :: 0 <= i < j < |[r] + R| ==> t[([r] + R)[i]].fc >= t[([r] + R)[j]].fc
  {
    PrependOne(R, r);
    var hs := [r] + R;
    forall i, j | 0 <= i < j < |hs|
      ensures hs[i] < |t| && hs[j] < |t| && t[hs[i]].fc >= t[hs[j]].fc
    {
      assert hs[j] == R[j - 1];
      if i > 0 {
        assert hs[i] == R[i - 1];
      }
    }
  }

  lemma FinishDistinct(active: set<nat>, all: set<nat>, R: seq<nat>, r: nat)
    requires TakenOut(active, all, R) && r in active
    ensures forall i, j :: 0 <= i < j < |[r] + R| ==> ([r] + R)[i] != ([r] + R)[j]
  {
    var hs := [r] + R;
    forall i, j | 0 <= i < j < |hs|
      ensures hs[i] != hs[j]
    {
      assert hs[j] == R[j - 1];
      if i > 0 {
        assert hs[i] == R[i - 1];
      }
    }
  }

  lemma FinishTree(F: Forest, R: seq<nat>, t: seq<CtData>, symbols: set<nat>, f: nat -> nat,
                   elems: nat, node: nat, r: nat)
    requires ForestInv(F, R, t, symbols, f, elems, node) && F.trees.Keys == {r}
    ensures WellFormed(F.trees[r]) && Numbered(F.trees[r], elems) && Leaves(F.trees[r]) == symbols
  {
    RootsAreNodes(F, elems, node);
    assert r in F.trees;
    LeavesAreSmall(F.trees[r], elems);
    assert forall y :: y in F.root ==> F.root[y] in F.trees && F.root[y] == r;
  }

  lemma FinishCost(F: Forest, t: seq<CtData>, symbols: set<nat>, f: nat -> nat, r: nat)
    requires CostInv(F, t, symbols, f) && F.trees.Keys == {r}
    ensures CostIsMinimal(symbols, f, HuffmanTree.Cost(F.trees[r], f))
  {
    hide Fits, TotalCost, SumSet;
    assert r in F.trees;
    SumSetSingle(r, TreeCosts(F, f));
    forall l: nat -> nat, top: nat | Fits(symbols, l, top)
      ensures TotalCost(symbols, f, l) >= HuffmanTree.Cost(F.trees[r], f)
    {
      ReachesBound(symbols, f, F.trees.Keys, FreqOf(t), SumSet(F.trees.Keys, TreeCosts(F, f)), l, top);
    }
  }

  lemma FinishGrow(F: Forest, f: nat -> nat, r: nat)
    requires GrowInv(F, f) && r in F.trees
    ensures Grown(F.trees[r], f)
  {
  }
}
