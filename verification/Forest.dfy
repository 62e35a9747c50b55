/** The state of the merging loop of build_tree: a forest whose roots are the
    nodes still in the heap, and the list of nodes already taken out of it. */
module Forest {
  import opened Arith
  import opened Codes
  import opened HuffmanTree
  import opened Optimal

  // `trees` maps each active node to the tree below it, `root` maps every node
  // made so far to the active node above it.
  datatype Forest = Forest(trees: map<nat, HTree>, root: map<nat, nat>)

  ghost predicate Shape(F: Forest, elems: nat, node: nat)
  {
    && (forall v :: v in F.trees ==>
          F.trees[v].id == v && WellFormed(F.trees[v]) && Numbered(F.trees[v], elems))
    && (forall x :: x in F.root ==>
          x < node && F.root[x] in F.trees && x in Ids(F.trees[F.root[x]]))
    && (forall v, x :: v in F.trees && x in Ids(F.trees[v]) ==> x in F.root && F.root[x] == v)
  }

  function Join(F: Forest, n: nat, m: nat, node: nat): Forest
    requires n in F.trees && m in F.trees
  {
    Forest((F.trees - {n, m})[node := Node(node, F.trees[n], F.trees[m])],
           (map x | x in F.root :: if F.root[x] == n || F.root[x] == m then node else F.root[x])[node := node])
  }

  lemma RootsAreNodes(F: Forest, elems: nat, node: nat)
    requires Shape(F, elems, node)
    ensures forall v :: v in F.trees ==> v in F.root && F.root[v] == v && v < node
  {
    forall v | v in F.trees
      ensures v in F.root && F.root[v] == v && v < node
    {
      RootIn(F.trees[v]);
    }
  }

  // A tree made of two others, one level unfolded.
  lemma Joined(id: nat, l: HTree, r: HTree)
    ensures Ids(Node(id, l, r)) == {id} + Ids(l) + Ids(r)
    ensures forall elems: nat :: Numbered(Node(id, l, r), elems) <==> id >= elems && Numbered(l, elems) && Numbered(r, elems)
    ensures forall x: nat :: Dad(Node(id, l, r), x) ==
              if l.id == x || r.id == x then id else if x in Ids(l) then Dad(l, x) else Dad(r, x)
  {
  }

  lemma JoinEntries(F: Forest, n: nat, m: nat, node: nat)
    requires n in F.trees && m in F.trees
    ensures var G := Join(F, n, m, node);
            && (forall v :: v in G.trees <==> v == node || (v in F.trees && v != n && v != m))
            && (forall v :: v in G.trees ==> G.trees[v] == if v == node then Node(node, F.trees[n], F.trees[m]) else F.trees[v])
            && (forall x :: x in G.root <==> x == node || x in F.root)
            && (forall x :: x in G.root ==>
                G.root[x] == if x == node || F.root[x] == n || F.root[x] == m then node else F.root[x])
  {
  }

  lemma JoinShape(F: Forest, elems: nat, node: nat, n: nat, m: nat)
    requires Shape(F, elems, node) && n in F.trees && m in F.trees && n != m && node >= elems
    ensures Shape(Join(F, n, m, node), elems, node + 1)
    ensures Join(F, n, m, node).trees.Keys == F.trees.Keys - {n, m} + {node}
    ensures Join(F, n, m, node).root.Keys == F.root.Keys + {node}
  {
    hide Ids, WellFormed, Numbered, Shape, Join;
    JoinEntries(F, n, m, node);
    var G := Join(F, n, m, node);
    assert G.trees.Keys == F.trees.Keys - {n, m} + {node};
    assert G.root.Keys == F.root.Keys + {node};
    forall v | v in G.trees
      ensures G.trees[v].id == v && WellFormed(G.trees[v]) && Numbered(G.trees[v], elems)
    {
      JoinedTree(F, elems, node, n, m, v);
    }
    forall x | x in G.root
      ensures x < node + 1 && G.root[x] in G.trees && x in Ids(G.trees[G.root[x]])
    {
      JoinedRoot(F, elems, node, n, m, x);
    }
    forall v, x | v in G.trees && x in Ids(G.trees[v])
      ensures x in G.root && G.root[x] == v
    {
      JoinedNode(F, elems, node, n, m, v, x);
    }
    ShapeIs(G, elems, node + 1);
  }

  lemma ShapeIs(F: Forest, elems: nat, node: nat)
    requires forall v :: v in F.trees ==> F.trees[v].id == v && WellFormed(F.trees[v]) && Numbered(F.trees[v], elems)
    requires forall x :: x in F.root ==> x < node && F.root[x] in F.trees && x in Ids(F.trees[F.root[x]])
    requires forall v, x :: v in F.trees && x in Ids(F.trees[v]) ==> x in F.root && F.root[x] == v
    ensures Shape(F, elems, node)
  {
  }

  lemma JoinedTree(F: Forest, elems: nat, node: nat, n: nat, m: nat, v: nat)
    requires Shape(F, elems, node) && n in F.trees && m in F.trees && n != m && node >= elems
    requires v in Join(F, n, m, node).trees
    ensures var T := Join(F, n, m, node).trees[v];
            T.id == v && WellFormed(T) && Numbered(T, elems)
  {
    hide Ids, WellFormed, Numbered, Dad, Join;
    JoinEntries(F, n, m, node);
    Joined(node, F.trees[n], F.trees[m]);
    JoinWellFormed(F, elems, node, n, m);
  }

  lemma JoinedRoot(F: Forest, elems: nat, node: nat, n: nat, m: nat, x: nat)
    requires Shape(F, elems, node) && n in F.trees && m in F.trees && n != m && node >= elems
    requires x in Join(F, n, m, node).root
    ensures var G := Join(F, n, m, node);
            x < node + 1 && G.root[x] in G.trees && x in Ids(G.trees[G.root[x]])
  {
    hide Ids, WellFormed, Numbered, Dad, Join;
    JoinEntries(F, n, m, node);
    Joined(node, F.trees[n], F.trees[m]);
    RootsAreNodes(F, elems, node);
    if x != node {
      assert x < node && x in Ids(F.trees[F.root[x]]);
    }
  }

  lemma JoinedNode(F: Forest, elems: nat, node: nat, n: nat, m: nat, v: nat, x: nat)
    requires Shape(F, elems, node) && n in F.trees && m in F.trees && n != m && node >= elems
    requires v in Join(F, n, m, node).trees && x in Ids(Join(F, n, m, node).trees[v])
    ensures var G := Join(F, n, m, node);
            x in G.root && G.root[x] == v
  {
    hide Ids, WellFormed, Numbered, Dad, Join;
    JoinEntries(F, n, m, node);
    Joined(node, F.trees[n], F.trees[m]);
    if v == node && x != node {
      assert x in Ids(F.trees[n]) || x in Ids(F.trees[m]);
      assert F.root[x] == n || F.root[x] == m;
    } else if v != node {
      assert F.root[x] == v;
    }
  }

  lemma JoinWellFormed(F: Forest, elems: nat, node: nat, n: nat, m: nat)
    requires Shape(F, elems, node) && n in F.trees && m in F.trees && n != m
    ensures WellFormed(Node(node, F.trees[n], F.trees[m]))
  {
    forall x | x in Ids(F.trees[n])
      ensures x < node && x !in Ids(F.trees[m])
    {
      assert x in F.root && F.root[x] == n;
    }
    forall x | x in Ids(F.trees[m])
      ensures x < node
    {
      assert x in F.root && F.root[x] == m;
    }
  }

  // ---------- father links ----------

  ghost predicate Linked(F: Forest, t: seq<CtData>)
  {
    forall x :: x in F.root && x !in F.trees && F.root[x] in F.trees ==>
      x < |t| && t[x].dl == Dad(F.trees[F.root[x]], x)
  }

  // The elements after one merge.
  function Merged(t: seq<CtData>, n: nat, m: nat, node: nat): seq<CtData>
    requires n < |t| && m < |t| && node < |t|
  {
    var t1 := t[node := t[node].(fc := U16(t[n].fc + t[m].fc))];
    var t2 := t1[m := t1[m].(dl := node)];
    t2[n := t2[n].(dl := node)]
  }

  lemma JoinLinked(F: Forest, elems: nat, node: nat, n: nat, m: nat, t: seq<CtData>)
    requires Shape(F, elems, node) && Linked(F, t) && n in F.trees && m in F.trees && n != m && elems <= node < |t|
    requires n < node && m < node
    ensures Linked(Join(F, n, m, node), Merged(t, n, m, node))
  {
    hide Ids, WellFormed, Numbered, Dad;
    RootsAreNodes(F, elems, node);
    Joined(node, F.trees[n], F.trees[m]);
    var G := Join(F, n, m, node);
    forall x | x in G.root && x !in G.trees && G.root[x] in G.trees
      ensures x < |t| && Merged(t, n, m, node)[x].dl == Dad(G.trees[G.root[x]], x)
    {
      if x != n && x != m {
        assert x in F.root && x !in F.trees;
        if F.root[x] == m {
          assert x !in Ids(F.trees[n]);
        }
      }
    }
  }

  lemma MergedFields(t: seq<CtData>, n: nat, m: nat, node: nat)
    requires n < |t| && m < |t| && node < |t| && n != node && m != node && n != m
    requires t[n].fc + t[m].fc < 0x1_0000
    ensures |Merged(t, n, m, node)| == |t|
    ensures Merged(t, n, m, node)[node].fc == t[n].fc + t[m].fc
    ensures forall x :: 0 <= x < |t| && x != node ==> Merged(t, n, m, node)[x].fc == t[x].fc
    ensures Merged(t, n, m, node)[n].dl == node && Merged(t, n, m, node)[m].dl == node
    ensures forall x :: 0 <= x < |t| && x != n && x != m ==> Merged(t, n, m, node)[x].dl == t[x].dl
  {
  }

  // ---------- the nodes taken out ----------

  // `R` lists, without repetition, the nodes that are no longer active.
  ghost predicate TakenOut(active: set<nat>, all: set<nat>, R: seq<nat>)
  {
    && (forall i, j :: 0 <= i < j < |R| ==> R[i] != R[j])
    && (forall i :: 0 <= i < |R| ==> R[i] in all && R[i] !in active)
    && (forall x :: x in all && x !in active ==> x in R)
  }

  // Fathers come before their sons.
  ghost predicate FathersFirst(active: set<nat>, R: seq<nat>, t: seq<CtData>)
  {
    forall i :: 0 <= i < |R| ==> R[i] < |t| && (t[R[i]].dl in active || t[R[i]].dl in R[..i])
  }

  // Frequencies never increase along the list, and no active node is rarer.
  ghost predicate ByFrequency(active: set<nat>, R: seq<nat>, t: seq<CtData>)
  {
    && (forall i :: 0 <= i < |R| ==> R[i] < |t|)
    && (forall v :: v in active ==> v < |t|)
    && (forall i, j :: 0 <= i < j < |R| ==> t[R[i]].fc >= t[R[j]].fc)
    && (forall v, i :: v in active && 0 <= i < |R| ==> t[v].fc >= t[R[i]].fc)
  }

  lemma PrependTwo(R: seq<nat>, m: nat, n: nat)
    ensures forall i :: 0 <= i < |R| ==> ([m, n] + R)[i + 2] == R[i]
    ensures ([m, n] + R)[0] == m && ([m, n] + R)[1] == n && |[m, n] + R| == |R| + 2
    ensures forall x :: x in R ==> x in [m, n] + R
    ensures m in [m, n] + R && n in [m, n] + R
  {
    forall x | x in R
      ensures x in [m, n] + R
    {
      var i :| 0 <= i < |R| && R[i] == x;
      assert ([m, n] + R)[i + 2] == x;
    }
    assert ([m, n] + R)[0] == m && ([m, n] + R)[1] == n;
  }

  lemma JoinTakenOut(active: set<nat>, all: set<nat>, R: seq<nat>, n: nat, m: nat, node: nat)
    requires TakenOut(active, all, R) && n in active && m in active && n != m && active <= all && node !in all
    ensures TakenOut(active - {n, m} + {node}, all + {node}, [m, n] + R)
  {
    PrependTwo(R, m, n);
    var R' := [m, n] + R;
    forall i, j | 0 <= i < j < |R'|
      ensures R'[i] != R'[j]
    {
      assert R'[j] == if j >= 2 then R[j - 2] else n;
      assert i >= 2 ==> R'[i] == R[i - 2];
    }
    forall i | 0 <= i < |R'|
      ensures R'[i] in all + {node} && R'[i] !in active - {n, m} + {node}
    {
      assert i >= 2 ==> R'[i] == R[i - 2];
    }
  }

  lemma JoinFathersFirst(active: set<nat>, R: seq<nat>, t: seq<CtData>, t': seq<CtData>, n: nat, m: nat, node: nat)
    requires FathersFirst(active, R, t) && n !in R && m !in R
    requires |t'| == |t| && n < |t| && m < |t| && t'[n].dl == node && t'[m].dl == node
    requires forall x :: 0 <= x < |t| && x != n && x != m ==> t'[x].dl == t[x].dl
    ensures FathersFirst(active - {n, m} + {node}, [m, n] + R, t')
  {
    PrependTwo(R, m, n);
    var R' := [m, n] + R;
    forall i | 0 <= i < |R'|
      ensures R'[i] < |t'| && (t'[R'[i]].dl in active - {n, m} + {node} || t'[R'[i]].dl in R'[..i])
    {
      if i >= 2 {
        var x := R[i - 2];
        assert R'[i] == x && x in R && t'[x].dl == t[x].dl;
        assert R'[..i] == [m, n] + R[..i - 2];
        PrependTwo(R[..i - 2], m, n);
      }
    }
  }

  lemma JoinByFrequency(active: set<nat>, R: seq<nat>, t: seq<CtData>, t': seq<CtData>, n: nat, m: nat, node: nat)
    requires ByFrequency(active, R, t) && n in active && m in active && node !in active && node !in R && node < |t|
    requires forall v :: v in active ==> t[n].fc <= t[v].fc
    requires forall v :: v in active && v != n ==> t[m].fc <= t[v].fc
    requires |t'| == |t| && t'[node].fc == t[n].fc + t[m].fc
    requires n != m && forall x :: 0 <= x < |t| && x != node ==> t'[x].fc == t[x].fc
    ensures ByFrequency(active - {n, m} + {node}, [m, n] + R, t')
  {
    PrependTwo(R, m, n);
    var R' := [m, n] + R;
    forall i | 2 <= i < |R'|
      ensures R'[i] == R[i - 2] && R'[i] < |t| && t'[R'[i]].fc == t[R[i - 2]].fc
    {
      assert R[i - 2] in R;
    }
    forall i, j | 0 <= i < j < |R'|
      ensures t'[R'[i]].fc >= t'[R'[j]].fc
    {
      if j >= 2 {
        assert t'[R'[j]].fc == t[R[j - 2]].fc;
      }
    }
    forall v, i | v in active - {n, m} + {node} && 0 <= i < |R'|
      ensures t'[v].fc >= t'[R'[i]].fc
    {
      if i >= 2 {
        assert t'[R'[i]].fc == t[R[i - 2]].fc <= t[m].fc;
      }
    }
  }

  // ---------- weights and cost ----------

  ghost predicate Weighed(F: Forest, t: seq<CtData>, f: nat -> nat)
  {
    forall v :: v in F.trees ==> v < |t| && t[v].fc == Weight(F.trees[v], f)
  }

  ghost function FreqOf(t: seq<CtData>): nat -> nat
  {
    (v: nat) => if v < |t| then t[v].fc else 0
  }

  ghost function TreeCosts(F: Forest, f: nat -> nat): nat -> int
  {
    (v: nat) => if v in F.trees then HuffmanTree.Cost(F.trees[v], f) else 0
  }

  ghost function AsInt(f: nat -> nat): nat -> int
  {
    (v: nat) => f(v)
  }

  lemma WeightIsSum(t: HTree, f: nat -> nat)
    requires WellFormed(t)
    ensures Weight(t, f) == SumSet(Leaves(t), AsInt(f))
  {
    CostIsLeafSum(t, 0, f);
    LeafSumIsSumSet(t, 0, Just(f));
    SumSetCongruent(Leaves(t), AtDepth(t, 0, Just(f)), AsInt(f));
  }

  // Symbols of the forest are the symbols it started from.
  ghost predicate Covers(all: set<nat>, symbols: set<nat>, elems: nat)
  {
    forall x :: x in symbols <==> x in all && x < elems
  }

  lemma JoinedWeight(F: Forest, elems: nat, node: nat, n: nat, m: nat, t: seq<CtData>, f: nat -> nat, symbols: set<nat>)
    requires Shape(F, elems, node) && n in F.trees && m in F.trees && n != m && node >= elems
    requires Weighed(F, t, f) && Covers(F.root.Keys, symbols, elems)
    ensures t[n].fc + t[m].fc <= SumSet(symbols, AsInt(f))
  {
    hide SumSet;
    var joined := Node(node, F.trees[n], F.trees[m]);
    assert WellFormed(joined) && Leaves(joined) <= symbols by { JoinedLeaves(F, elems, node, n, m, symbols); }
    WeightIsSum(joined, f);
    SumSetSubset(Leaves(joined), symbols, AsInt(f));
  }

  lemma JoinedLeaves(F: Forest, elems: nat, node: nat, n: nat, m: nat, symbols: set<nat>)
    requires Shape(F, elems, node) && n in F.trees && m in F.trees && n != m && node >= elems
    requires Covers(F.root.Keys, symbols, elems)
    ensures WellFormed(Node(node, F.trees[n], F.trees[m]))
    ensures Leaves(Node(node, F.trees[n], F.trees[m])) <= symbols
  {
    JoinWellFormed(F, elems, node, n, m);
    var l, r := F.trees[n], F.trees[m];
    LeavesAreSmall(l, elems);
    LeavesAreSmall(r, elems);
    forall x | x in Leaves(l) || x in Leaves(r)
      ensures x in symbols
    {
      assert x in Ids(l) || x in Ids(r);
    }
  }

  lemma JoinWeighed(F: Forest, node: nat, n: nat, m: nat, t: seq<CtData>, t': seq<CtData>, f: nat -> nat)
    requires n in F.trees && m in F.trees && n != m && node !in F.trees
    requires Weighed(F, t, f)
    requires |t'| == |t| && node < |t| && t'[node].fc == t[n].fc + t[m].fc
    requires forall x :: 0 <= x < |t| && x != node ==> t'[x].fc == t[x].fc
    ensures Weighed(Join(F, n, m, node), t', f)
    ensures FreqOf(t')(node) == FreqOf(t)(n) + FreqOf(t)(m)
    ensures forall v :: v in F.trees ==> FreqOf(t')(v) == FreqOf(t)(v)
  {
  }

  lemma JoinCosts(F: Forest, elems: nat, node: nat, n: nat, m: nat, t: seq<CtData>, f: nat -> nat)
    requires Shape(F, elems, node) && n in F.trees && m in F.trees && n != m && node >= elems
    requires Weighed(F, t, f)
    ensures SumSet(F.trees.Keys - {n, m} + {node}, TreeCosts(Join(F, n, m, node), f))
         == SumSet(F.trees.Keys, TreeCosts(F, f)) + t[n].fc + t[m].fc
  {
    hide SumSet, Shape;
    assert node !in F.trees by { RootsAreNodes(F, elems, node); }
    var G := Join(F, n, m, node);
    var rest := F.trees.Keys - {n} - {m};
    SumSetRemove(F.trees.Keys, n, TreeCosts(F, f));
    SumSetRemove(F.trees.Keys - {n}, m, TreeCosts(F, f));
    assert F.trees.Keys - {n, m} == rest;
    SumSetAdd(rest, node, TreeCosts(G, f));
    forall v | v in rest
      ensures TreeCosts(F, f)(v) == TreeCosts(G, f)(v)
    {
      assert G.trees[v] == F.trees[v];
    }
    SumSetCongruent(rest, TreeCosts(F, f), TreeCosts(G, f));
  }
}
