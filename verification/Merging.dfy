/** The merging loop of build_tree: repeatedly combine the two least frequent
    nodes. The result is a full binary tree over the used symbols. */
module Merging {
  import opened Arith
  import opened Codes
  import opened Heap
  import opened HuffmanTree
  import opened Optimal
  import opened Forest

  const L_CODES: nat := 286
  const HEAP_SIZE: nat := 2 * L_CODES + 1

  // ---------- the heap as a set ----------

  ghost predicate HeapHolds(hp: seq<nat>, len: nat, active: set<nat>, t: seq<CtData>, depth: seq<nat>)
  {
    && InRange(hp, len, t, depth)
    && Ordered(hp, len, t, depth, 1)
    && multiset(hp[1..len + 1]) == multiset(active)
  }

  lemma Members(hp: seq<nat>, len: nat, active: set<nat>)
    requires len < |hp| && multiset(hp[1..len + 1]) == multiset(active)
    ensures |active| == len
    ensures forall i :: 1 <= i <= len ==> hp[i] in active
    ensures forall v :: v in active ==> v in hp[1..len + 1]
  {
    var part := hp[1..len + 1];
    assert |multiset(part)| == |multiset(active)|;
    forall i | 1 <= i <= len
      ensures hp[i] in active
    {
      assert part[i - 1] in multiset(part);
    }
    forall v | v in active
      ensures v in part
    {
      assert v in multiset(active);
    }
  }

  lemma TopIsLightest(hp: seq<nat>, len: nat, active: set<nat>, t: seq<CtData>, depth: seq<nat>)
    requires HeapHolds(hp, len, active, t, depth) && len >= 1
    ensures hp[1] in active
    ensures forall v :: v in active ==> v < |t| && t[hp[1]].fc <= t[v].fc
  {
    Members(hp, len, active);
    forall v | v in active
      ensures v < |t| && t[hp[1]].fc <= t[v].fc
    {
      var i :| 0 <= i < len && hp[1..len + 1][i] == v;
      RootSmallest(hp, len, t, depth, i + 1);
    }
  }

  lemma RemoveFirst(hp: seq<nat>, len: nat, active: set<nat>)
    requires 2 <= len < |hp| && multiset(hp[1..len + 1]) == multiset(active)
    ensures multiset(hp[1 := hp[len]][1..len]) == multiset(active - {hp[1]})
  {
    Members(hp, len, active);
    var x, y, mid := hp[1], hp[len], hp[2..len];
    assert hp[1..len + 1] == [x] + mid + [y];
    assert hp[1 := y][1..len] == [y] + mid;
    RotateLast(x, mid, y);
    TakeFromSet(active, x);
    Cancel(multiset{x}, multiset([y] + mid), multiset(active - {x}));
  }

  lemma Cancel(a: multiset<nat>, b: multiset<nat>, c: multiset<nat>)
    requires a + b == a + c
    ensures b == c
  {
    assert b == (a + b) - a;
    assert c == (a + c) - a;
  }

  lemma RotateLast(x: nat, mid: seq<nat>, y: nat)
    ensures multiset([x] + mid + [y]) == multiset{x} + multiset([y] + mid)
  {
  }

  lemma TakeFromSet(active: set<nat>, x: nat)
    requires x in active
    ensures multiset(active) == multiset{x} + multiset(active - {x})
  {
  }

  lemma RemoveTop(hp: seq<nat>, len: nat, active: set<nat>, t: seq<CtData>, depth: seq<nat>)
    requires HeapHolds(hp, len, active, t, depth) && len >= 2
    ensures InRange(hp[1 := hp[len]], len - 1, t, depth)
    ensures Ordered(hp[1 := hp[len]], len - 1, t, depth, 2)
    ensures multiset(hp[1 := hp[len]][1..len]) == multiset(active - {hp[1]})
  {
    RemoveFirst(hp, len, active);
  }

  lemma ReplaceFirst(hp: seq<nat>, len: nat, active: set<nat>, node: nat)
    requires 1 <= len < |hp| && multiset(hp[1..len + 1]) == multiset(active) && node !in active
    ensures multiset(hp[1 := node][1..len + 1]) == multiset(active - {hp[1]} + {node})
  {
    Members(hp, len, active);
    var x, rest := hp[1], hp[2..len + 1];
    assert hp[1..len + 1] == [x] + rest;
    assert hp[1 := node][1..len + 1] == [node] + rest;
    assert multiset([x] + rest) == multiset{x} + multiset(rest);
    assert multiset([node] + rest) == multiset{node} + multiset(rest);
    TakeFromSet(active, x);
    TakeFromSet(active - {x} + {node}, node);
    assert active - {x} + {node} - {node} == active - {x};
  }

  // The father takes the place of the second son.
  lemma ReplaceTop(hp: seq<nat>, hp': seq<nat>, len: nat, active: set<nat>, t: seq<CtData>, depth: seq<nat>,
                   node: nat, t': seq<CtData>, depth': seq<nat>)
    requires HeapHolds(hp, len, active, t, depth) && len >= 1 && node !in active
    requires |hp'| == |hp| && hp'[..len + 1] == hp[1 := node][..len + 1]
    requires |t'| == |t| && |depth'| == |depth| && node < |t| && node < |depth|
    requires forall v :: 0 <= v < |t| && v != node ==> t'[v].fc == t[v].fc
    requires forall v :: 0 <= v < |depth| && v != node ==> depth'[v] == depth[v]
    ensures InRange(hp', len, t', depth')
    ensures Ordered(hp', len, t', depth', 2)
    ensures multiset(hp'[1..len + 1]) == multiset(active - {hp[1]} + {node})
  {
    Members(hp, len, active);
    ReplaceFirst(hp, len, active, node);
    forall i | 0 <= i <= len
      ensures hp'[i] == hp[1 := node][i]
    {
      assert hp'[i] == hp'[..len + 1][i];
    }
    assert hp'[1..len + 1] == hp[1 := node][1..len + 1];
  }

  lemma Settle(hp: seq<nat>, hp': seq<nat>, len: nat, active: set<nat>, t: seq<CtData>, depth: seq<nat>)
    requires SamePlaces(hp', hp, len) && multiset(hp[1..len + 1]) == multiset(active)
    requires InRange(hp', len, t, depth) && Ordered(hp', len, t, depth, 1)
    ensures HeapHolds(hp', len, active, t, depth)
  {
  }

  // ---------- the whole invariant ----------

  ghost predicate ForestInv(F: Forest, R: seq<nat>, t: seq<CtData>, symbols: set<nat>, f: nat -> nat,
                            elems: nat, node: nat)
  {
    && Shape(F, elems, node)
    && Linked(F, t)
    && Weighed(F, t, f)
    && Covers(F.root.Keys, symbols, elems)
    && TakenOut(F.trees.Keys, F.root.Keys, R)
    && FathersFirst(F.trees.Keys, R, t)
    && ByFrequency(F.trees.Keys, R, t)
  }

  // The cost built up so far is unavoidable, whatever lengths are chosen.
  ghost predicate CostInv(F: Forest, t: seq<CtData>, symbols: set<nat>, f: nat -> nat)
  {
    Reaches(symbols, f, F.trees.Keys, FreqOf(t), SumSet(F.trees.Keys, TreeCosts(F, f)))
  }

  // `n` and `m` are the two least frequent active nodes.
  ghost predicate Lightest(F: Forest, t: seq<CtData>, n: nat, m: nat)
  {
    && n in F.trees && m in F.trees && n != m
    && (forall v :: v in F.trees ==> v < |t|)
    && (forall v :: v in F.trees ==> t[n].fc <= t[v].fc)
    && (forall v :: v in F.trees && v != n ==> t[m].fc <= t[v].fc)
  }

  // No tree has a node heavier than the brother of its father, and every tree is
  // at least as heavy as the sons of the other roots.
  ghost predicate GrowInv(F: Forest, f: nat -> nat)
  {
    && (forall v :: v in F.trees ==> Grown(F.trees[v], f))
    && (forall v, w :: v in F.trees && w in F.trees && v != w ==> Outweighs(F.trees[v], F.trees[w], f))
  }

  lemma GrowStep(F: Forest, R: seq<nat>, t: seq<CtData>, symbols: set<nat>, f: nat -> nat,
                 elems: nat, node: nat, n: nat, m: nat)
    requires ForestInv(F, R, t, symbols, f, elems, node) && Lightest(F, t, n, m) && GrowInv(F, f)
    ensures GrowInv(Join(F, n, m, node), f)
  {
    hide Grown, Outweighs, Join, Shape, Linked, Covers, TakenOut, FathersFirst, ByFrequency;
    JoinEntries(F, n, m, node);
    var G, T := Join(F, n, m, node), Node(node, F.trees[n], F.trees[m]);
    assert Grown(T, f) by { JoinGrown(node, F.trees[n], F.trees[m], f); }
    forall v, w | v in G.trees && w in G.trees && v != w
      ensures Outweighs(G.trees[v], G.trees[w], f)
    {
      if v == node {
        Heavier(F.trees[n], F.trees[m], F.trees[w], node, f);
      } else if w == node {
        AboveBoth(F.trees[v], node, F.trees[n], F.trees[m], f);
      }
    }
  }

  lemma JoinGrown(id: nat, l: HTree, r: HTree, f: nat -> nat)
    requires Grown(l, f) && Grown(r, f) && Outweighs(l, r, f) && Outweighs(r, l, f)
    ensures Grown(Node(id, l, r), f)
  {
  }

  lemma Heavier(l: HTree, r: HTree, b: HTree, id: nat, f: nat -> nat)
    requires Outweighs(l, b, f)
    ensures Outweighs(Node(id, l, r), b, f)
  {
  }

  lemma AboveBoth(a: HTree, id: nat, l: HTree, r: HTree, f: nat -> nat)
    requires Weight(a, f) >= Weight(l, f) && Weight(a, f) >= Weight(r, f)
    ensures Outweighs(a, Node(id, l, r), f)
  {
  }

  lemma ForestStep(F: Forest, R: seq<nat>, t: seq<CtData>, symbols: set<nat>, f: nat -> nat,
                   elems: nat, node: nat, n: nat, m: nat)
    requires ForestInv(F, R, t, symbols, f, elems, node)
    requires elems <= node < |t| && SumSet(symbols, AsInt(f)) < 0x1_0000
    requires Lightest(F, t, n, m)
    ensures Join(F, n, m, node).trees.Keys == F.trees.Keys - {n, m} + {node}
    ensures node !in F.trees && n < node && m < node && t[n].fc + t[m].fc < 0x1_0000
    ensures ForestInv(Join(F, n, m, node), [m, n] + R, Merged(t, n, m, node), symbols, f, elems, node + 1)
  {
    hide Shape, Linked, Weighed, Covers, TakenOut, FathersFirst, ByFrequency, SumSet, Join, Merged, Dad, Cost;
    hide AsInt, TreeCosts, FreqOf, Fits, TotalCost;
    var active, all := F.trees.Keys, F.root.Keys;
    RootsBelow(F, elems, node);
    JoinShape(F, elems, node, n, m);
    JoinLinked(F, elems, node, n, m, t);
    JoinedWeight(F, elems, node, n, m, t, f, symbols);
    MergedFields(t, n, m, node);
    var t' := Merged(t, n, m, node);
    JoinWeighed(F, node, n, m, t, t', f);
    JoinTakenOut(active, all, R, n, m, node);
    NotTakenOut(active, all, R, n, m, node);
    JoinFathersFirst(active, R, t, t', n, m, node);
    JoinByFrequency(active, R, t, t', n, m, node);
    JoinCovers(all, symbols, elems, node);
  }

  lemma CostStep(F: Forest, t: seq<CtData>, symbols: set<nat>, f: nat -> nat, elems: nat, node: nat, n: nat, m: nat)
    requires CostInv(F, t, symbols, f) && Shape(F, elems, node) && Weighed(F, t, f) && Lightest(F, t, n, m)
    requires elems <= node < |t| && t[n].fc + t[m].fc < 0x1_0000
    ensures CostInv(Join(F, n, m, node), Merged(t, n, m, node), symbols, f)
  {
    hide Shape, Weighed, SumSet, Join, Merged, TreeCosts, Fits, TotalCost, FreqOf;
    RootsBelow(F, elems, node);
    JoinShape(F, elems, node, n, m);
    MergedFields(t, n, m, node);
    JoinCosts(F, elems, node, n, m, t, f);
    var G := Join(F, n, m, node);
    var done := SumSet(F.trees.Keys, TreeCosts(F, f));
    ReachesFather(symbols, f, F.trees.Keys, G.trees.Keys, t, Merged(t, n, m, node), done, n, m, node,
                  done + t[n].fc + t[m].fc);
  }

  lemma ReachesFather(symbols: set<nat>, f: nat -> nat, active: set<nat>, active': set<nat>,
                      t: seq<CtData>, t': seq<CtData>, done: int, n: nat, m: nat, node: nat, cost: int)
    requires Reaches(symbols, f, active, FreqOf(t), done)
    requires n in active && m in active && n != m && node !in active && active' == active - {n, m} + {node}
    requires forall v :: v in active ==> v < |t|
    requires |t'| == |t| && node < |t| && t'[node].fc == t[n].fc + t[m].fc
    requires forall x :: 0 <= x < |t| && x != node ==> t'[x].fc == t[x].fc
    requires forall v :: v in active ==> t[n].fc <= t[v].fc
    requires forall v :: v in active && v != n ==> t[m].fc <= t[v].fc
    requires cost == done + t[n].fc + t[m].fc
    ensures Reaches(symbols, f, active', FreqOf(t'), cost)
  {
    hide Reaches;
    FreqOfIs(t, active);
    FreqOfIs(t', active + {node});
    ReachesStep(symbols, f, active, FreqOf(t), done, n, m, node, FreqOf(t'));
  }

  lemma FreqOfIs(t: seq<CtData>, s: set<nat>)
    requires forall v :: v in s ==> v < |t|
    ensures forall v :: v in s ==> FreqOf(t)(v) == t[v].fc
  {
  }

  lemma RootsBelow(F: Forest, elems: nat, node: nat)
    requires Shape(F, elems, node)
    ensures F.trees.Keys <= F.root.Keys && node !in F.root && forall v :: v in F.trees ==> v < node
  {
    RootsAreNodes(F, elems, node);
  }

  lemma NotTakenOut(active: set<nat>, all: set<nat>, R: seq<nat>, n: nat, m: nat, node: nat)
    requires TakenOut(active, all, R) && n in active && m in active && node !in all
    ensures n !in R && m !in R && node !in R
  {
  }

  lemma JoinCovers(all: set<nat>, symbols: set<nat>, elems: nat, node: nat)
    requires Covers(all, symbols, elems) && node >= elems
    ensures Covers(all + {node}, symbols, elems)
  {
  }

  // Room in the shared array: the heap grows from below, the list from above.
  ghost predicate Layout(hp: seq<nat>, heapLen: nat, heapMax: nat, t: seq<CtData>, depth: seq<nat>,
                         symbols: set<nat>, elems: nat, node: nat)
  {
    && |hp| == HEAP_SIZE && |depth| == HEAP_SIZE && |t| == 2 * elems + 1
    && |symbols| <= elems <= L_CODES
    && elems <= node && node + heapLen == elems + |symbols|
    && heapMax == HEAP_SIZE - 2 * (node - elems)
    && 1 <= heapLen
  }

  ghost predicate MergeInv(hp: seq<nat>, heapLen: nat, heapMax: nat, t: seq<CtData>, depth: seq<nat>, F: Forest,
                           symbols: set<nat>, f: nat -> nat, elems: nat, node: nat)
  {
    && Layout(hp, heapLen, heapMax, t, depth, symbols, elems, node)
    && HeapHolds(hp, heapLen, F.trees.Keys, t, depth)
    && SumSet(symbols, AsInt(f)) < 0x1_0000
    && ForestInv(F, hp[heapMax..], t, symbols, f, elems, node)
    && CostInv(F, t, symbols, f)
  }
}
