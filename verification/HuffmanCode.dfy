/** build_tree: what the finished code is worth. */
module HuffmanCode {
  import opened Arith
  import opened Bits
  import opened Rfc1951
  import opened Canonical
  import opened Codes
  import opened Heap
  import opened HuffmanTree
  import opened Optimal
  import opened Forest
  import opened Merging
  import opened MergeEnds
  import opened HeapMerge
  import opened LengthCounts
  import opened NodeLengths
  import opened Reassign
  import opened LengthResult
  import opened TreeBuild

  // ---------- totals ----------

  function FreqSum(freqs: seq<nat>, n: nat): nat
    requires n <= |freqs|
  {
    if n == 0 then 0 else FreqSum(freqs, n - 1) + freqs[n - 1]
  }

  lemma {:induction false} FreqSumIsSumSet(t: seq<CtData>, n: nat)
    requires n <= |t|
    ensures FreqSum(Freqs(t), n) == SumSet(Used(t, n), AsInt(FreqOf(t)))
    decreases n
  {
    hide SumSet;
    if n == 0 {
      assert Used(t, 0) == {};
      SumEmpty(AsInt(FreqOf(t)));
    } else {
      FreqSumIsSumSet(t, n - 1);
      UsedNext(t, n - 1);
      if t[n - 1].fc != 0 {
        SumSetAdd(Used(t, n - 1), n - 1, AsInt(FreqOf(t)));
      } else {
        assert Used(t, n) == Used(t, n - 1);
      }
    }
  }

  lemma {:induction false} SumOfOnes(s: set<nat>, g: nat -> int)
    requires forall x :: x in s ==> g(x) == 1
    ensures SumSet(s, g) == |s|
    decreases |s|
  {
    if s != {} {
      var x :| x in s;
      SumSetRemove(s, x, g);
      SumOfOnes(s - {x}, g);
    }
  }

  // A code with two symbols gives each one bit.
  lemma TwoCodes(symbols: set<nat>, l: nat -> nat, top: nat, x: nat)
    requires |symbols| == 2 && Between(symbols, l, 1, top) && Space(symbols, l, top) == Pow2(top) && x in symbols
    ensures l(x) == 1
  {
    hide Space, Room;
    var rest := symbols - {x};
    assert |rest| == 1;
    var y :| y in rest;
    OnlyOne(rest, y);
    TakeOut(symbols, l, l, top, x);
    TakeOut(rest, l, l, top, y);
    assert rest - {y} == {};
    EmptySpace(l, top);
    RoomIs(l(x), top);
    RoomIs(l(y), top);
    Pow2Mono(top - l(x), top - 1);
    Pow2Mono(top - l(y), top - 1);
    if l(x) > 1 {
      Pow2Mono(top - l(x), top - 2);
    }
  }

  lemma OneBit(t: seq<CtData>, l: nat -> nat, xb: nat -> nat, x: nat)
    requires x < |t| && t[x].fc == 1 && l(x) == 1 && xb(x) == 0
    ensures BitsFn(FreqOf(t), l, xb)(x) == 1
  {
  }

  lemma Cancel(x0: int, x1: int, d: int, s: int)
    requires x1 == U32(x0 - d)
    ensures U32(x1 + (s + d)) == U32(x0 + s)
  {
    U32Add(x0 - d, s + d);
  }

  // ---------- optimality and rarity ----------

  // A rarer symbol never has the shorter code.
  ghost predicate RarerIsLonger(symbols: set<nat>, f: nat -> nat, l: nat -> nat)
  {
    forall x, y :: x in symbols && y in symbols && f(x) < f(y) ==> l(x) >= l(y)
  }

  lemma MinimalIsByRarity(symbols: set<nat>, f: nat -> nat, l: nat -> nat, top: nat)
    requires Fits(symbols, l, top) && CostIsMinimal(symbols, f, TotalCost(symbols, f, l))
    ensures RarerIsLonger(symbols, f, l)
  {
    hide TotalCost, Space, Room, Pow2;
    forall x, y | x in symbols && y in symbols && f(x) < f(y)
      ensures l(x) >= l(y)
    {
      if l(x) < l(y) {
        Exchange(symbols, f, l, top, x, y);
        var l1 := Update(l, x, l(y));
        Change(symbols, f, l, top, x, l(y));
        Change(symbols, f, l1, top, y, l(x));
        StrictGain(f(x), f(y), l(x), l(y));
        assert false;
      }
    }
  }

  lemma StrictGain(a: nat, b: nat, la: nat, lb: nat)
    requires a < b && la < lb
    ensures a * la + b * lb > a * lb + b * la
  {
    var d, e := b - a, lb - la;
    assert d * e > 0;
    assert (a + d) * (la + e) == a * la + a * e + d * la + d * e;
    assert (a + d) * la == a * la + d * la;
    assert a * (la + e) == a * la + a * e;
  }

  ghost function DepthFn(T: HTree): nat -> nat
  {
    (x: nat) => Depth(T, 0, x)
  }

  // `T` is a tree over the symbols whose depths no code can beat; for its height
  // it takes as many occurrences as a Fibonacci number says.
  ghost predicate Huffman(T: HTree, symbols: set<nat>, f: nat -> nat)
  {
    && WellFormed(T) && Leaves(T) == symbols
    && CostIsMinimal(symbols, f, TotalCost(symbols, f, DepthFn(T)))
    && SumSet(symbols, AsInt(f)) >= Fib(Height(T) + 2)
  }

  // Lengths `l` made of the depths in `T`: the depths themselves if and only if
  // these do not exceed `top`, and rarer symbols never have shorter codes.
  ghost predicate Limited(T: HTree, symbols: set<nat>, f: nat -> nat, l: nat -> nat, top: nat)
  {
    && (Height(T) <= top ==> forall x :: x in symbols ==> l(x) == Depth(T, 0, x))
    && (Height(T) > top ==> exists x :: x in symbols && l(x) == top)
    && RarerIsLonger(symbols, f, l)
  }

  lemma HuffmanIs(T: HTree, f: nat -> nat)
    requires WellFormed(T) && Grown(T, f) && CostIsMinimal(Leaves(T), f, HuffmanTree.Cost(T, f))
    ensures Huffman(T, Leaves(T), f)
  {
    hide TotalCost, Leaves, WellFormed, HuffmanTree.Cost, SumSet, LowerBounds, Fib, Grown, Height;
    DepthsCost(T, f, DepthFn(T));
    HighIsHeavy(T, f);
    WeightIsSum(T, f);
  }

  lemma HuffmanHeavy(T: HTree, symbols: set<nat>, f: nat -> nat)
    requires Huffman(T, symbols, f)
    ensures SumSet(symbols, AsInt(f)) >= Fib(Height(T) + 2)
  {
    hide LowerBounds, TotalCost, SumSet, Fib, Height, WellFormed, Leaves;
  }

  // The depths, and lengths equal to them, cost as little as possible.
  lemma HuffmanMinimal(T: HTree, symbols: set<nat>, f: nat -> nat, l: nat -> nat)
    requires Huffman(T, symbols, f) && forall x :: x in symbols ==> l(x) == Depth(T, 0, x)
    ensures CostIsMinimal(symbols, f, TotalCost(symbols, f, l))
  {
    hide TotalCost, Leaves, WellFormed, SumSet, LowerBounds, Fib, Height, Depth;
    Same(symbols, f, DepthFn(T), f, l, 0);
  }

  lemma HuffmanOutcome(r: Run, l: nat -> nat, c: seq<nat>)
    requires ValidRun(r) && Outcome(r, l) && Complete(Leaves(r.T), l, c, r.top) && Huffman(r.T, Leaves(r.T), r.f)
    ensures Limited(r.T, Leaves(r.T), r.f, l, r.top)
  {
    hide TotalCost, Space, TreeList, Leaves, WellFormed, Numbered, Height, Huffman, LowerBounds;
    if Height(r.T) <= r.top {
      HuffmanMinimal(r.T, Leaves(r.T), r.f, l);
      MinimalIsByRarity(Leaves(r.T), r.f, l, r.top);
    }
  }

  // ---------- the finished code ----------

  ghost predicate BuiltCode(t: seq<CtData>, elems: nat, top: nat, maxCode: nat)
  {
    && maxCode < elems <= |t|
    && t[maxCode].dl > 0
    && (forall n :: maxCode < n < elems ==> t[n].dl == 0)
    && (forall n :: 0 <= n <= maxCode ==> t[n].dl <= top)
    && Kraft(Lens(t[..maxCode + 1]), top) == Pow2(top)
    && ValidLengths(Lens(t[..maxCode + 1]))
    && CodesSet(t, Lens(t[..maxCode + 1]))
  }

  lemma {:induction false} KraftScale(lens: seq<nat>, top: nat, k: nat)
    requires forall i :: 0 <= i < |lens| ==> lens[i] <= top
    ensures Kraft(lens, top + k) == Kraft(lens, top) * Pow2(k)
    decreases k
  {
    hide Kraft, Count, Pow2;
    if k == 0 {
      assert Pow2(0) == 1 by { Pow2Values(); }
    } else {
      KraftScale(lens, top, k - 1);
      KraftStep(lens, top + k);
      NoneCounted(lens, top, top + k);
      Pow2Next(k - 1);
      TwiceProduct(Kraft(lens, top), Pow2(k - 1));
    }
  }

  lemma {:induction false} NoneCounted(lens: seq<nat>, top: nat, b: nat)
    requires b > top && forall i :: 0 <= i < |lens| ==> lens[i] <= top
    ensures Count(lens, b) == 0
    decreases |lens|
  {
    if lens != [] {
      NoneCounted(lens[..|lens| - 1], top, b);
    }
  }

  // A complete set of lengths is what gen_codes expects.
  lemma ReadyForCodes(t: seq<CtData>, symbols: set<nat>, c: seq<nat>, top: nat, elems: nat, maxCode: nat)
    requires Complete(symbols, DlOf(t), c, top) && 1 <= top <= MAX_BITS
    requires IsMax(symbols, maxCode) && maxCode < elems <= |t|
    requires forall x :: 0 <= x < elems && x !in symbols ==> t[x].dl == 0
    ensures Kraft(Lens(t[..maxCode + 1]), top) == Pow2(top)
    ensures ValidLengths(Lens(t[..maxCode + 1]))
    ensures forall b :: 1 <= b <= MAX_BITS ==> c[b] == Count(Lens(t[..maxCode + 1]), b)
    ensures symbols != {} ==> t[maxCode].dl > 0
    ensures forall n :: maxCode < n < elems ==> t[n].dl == 0
    ensures forall n :: 0 <= n <= maxCode ==> t[n].dl <= top
  {
    hide Kraft, Count, Space, SumSet, Pow2;
    var lens := Lens(t[..maxCode + 1]);
    assert forall x :: x in symbols ==> DlOf(t)(x) == t[x].dl;
    KraftIsSpace(lens, symbols, DlOf(t), top);
    KraftScale(lens, top, MAX_BITS - top);
    Pow2Add(top, MAX_BITS - top);
    forall b | 1 <= b <= MAX_BITS
      ensures c[b] == Count(lens, b)
    {
      CountIsSum(lens, symbols, DlOf(t), b);
    }
  }

  // What build_tree promises about the code it leaves in `t`, given the
  // elements `t0` it started from.
  ghost predicate CodeFor(t0: seq<CtData>, t: seq<CtData>, elems: nat, top: nat, maxCode: nat)
  {
    && BuiltCode(t, elems, top, maxCode)
    && |t| == |t0|
    && (forall n :: 0 <= n < elems && t0[n].fc > 0 ==> t[n].dl > 0)
  }

  // `forced` symbols count as occurring once.
  ghost function ForcedFreq(t0: seq<CtData>, forced: set<nat>): nat -> nat
  {
    (x: nat) => if x in forced then 1 else if x < |t0| then t0[x].fc else 0
  }

  ghost function CodedSet(lens: seq<nat>, elems: nat): set<nat>
  {
    set n | 0 <= n < elems && n < |lens| && lens[n] > 0
  }

  ghost function LenFn(lens: seq<nat>): nat -> nat
  {
    (x: nat) => if x < |lens| then lens[x] else 0
  }

  // The quality of the code: exactly the symbols in use have one, and its lengths
  // come from the Huffman tree `T` for them.
  ghost predicate Quality(t0: seq<CtData>, lens: seq<nat>, elems: nat, top: nat, forced: set<nat>, T: HTree)
  {
    && Huffman(T, CodedSet(lens, elems), ForcedFreq(t0, forced))
    && Limited(T, CodedSet(lens, elems), ForcedFreq(t0, forced), LenFn(lens), top)
    && (forall x :: x in CodedSet(lens, elems) ==> x in forced || (x < |t0| && t0[x].fc > 0))
    && (forall x :: x in forced ==> x <= 2 && x < |t0| && t0[x].fc == 0)
    && (forced != {} ==> |CodedSet(lens, elems)| == 2)
  }

  // ---------- build_tree ----------

  // The elements when the heap is complete: unused symbols have no length,
  // `forced` symbols have frequency one.
  ghost predicate Prepared(t0: seq<CtData>, t: seq<CtData>, forced: set<nat>, elems: nat)
  {
    && |t| == |t0| && elems <= |t|
    && (forall x :: x in forced ==> x <= 2 && x < elems && t0[x].fc == 0 && t[x].fc == 1)
    && (forall i :: 0 <= i < |t| && i !in forced ==> t[i].fc == t0[i].fc)
    && (forall i :: 0 <= i < elems && t[i].fc == 0 ==> t[i].dl == 0)
    && (forced != {} ==> |Used(t, elems)| == 2)
  }

  lemma PreparedIs(t0: seq<CtData>, t1: seq<CtData>, t: seq<CtData>, forced: set<nat>, elems: nat, heapLen: nat,
                   slen: nat -> int, opt0: nat, opt: nat, stat0: nat, stat: nat)
    requires Cleared(t0, t1, elems)
    requires ForceState(t1, t, forced, elems, heapLen, slen, opt0, opt, stat0, stat) && heapLen >= 2
    ensures Prepared(t0, t, forced, elems)
    ensures opt == U32(opt0 - |forced|) && stat == U32(stat0 - SumSet(forced, slen))
  {
    hide SumSet, Used, U32;
    ForcedUsed(t1, t, forced, elems);
    UnionSize(Used(t1, elems), forced);
  }

  lemma UnionSize(a: set<nat>, b: set<nat>)
    requires a !! b
    ensures |a + b| == |a| + |b|
  {
  }

  // The heap holds exactly the symbols in use.
  method PrepareTree(b: Builder, tree: array<CtData>, stree: array?<CtData>, elems: nat)
    returns (maxCode: nat, ghost forced: set<nat>)
    requires b.Valid() && 3 <= elems <= L_CODES && tree.Length == 2 * elems + 1
    requires stree != null ==> stree != tree && elems <= stree.Length
    requires b.optLen < 0x1_0000_0000 && b.staticLen < 0x1_0000_0000
    modifies b`heapLen, b`heapMax, b`optLen, b`staticLen, b.heap, b.depth, tree
    ensures Prepared(old(tree[..]), tree[..], forced, elems)
    ensures b.heapMax == HEAP_SIZE && 2 <= b.heapLen == |Used(tree[..], elems)| <= elems
    ensures HeapHolds(b.heap[..], b.heapLen, Used(tree[..], elems), tree[..], b.depth[..])
    ensures IsMax(Used(tree[..], elems), maxCode)
    ensures b.optLen == U32(old(b.optLen) - |forced|)
    ensures b.staticLen == U32(old(b.staticLen) - SumSet(forced, StaticLen(stree)))
  {
    hide ForceState, Used, SumSet, HeapSet, IsMax, Cleared, HeapHolds, Prepared, StaticLen;
    ghost var t0 := tree[..];
    var m := CollectUsed(b, tree, elems);
    ghost var t1 := tree[..];
    maxCode, forced := ForceTwo(b, tree, stree, elems, m);
    PreparedIs(t0, t1, tree[..], forced, elems, b.heapLen, StaticLen(stree), old(b.optLen), b.optLen,
               old(b.staticLen), b.staticLen);
    ghost var used := Used(tree[..], elems);
    HeapSetSize(b.heap[..], b.heapLen, used);
    HeapSetRange(b.heap[..], b.heapLen, tree[..], b.depth[..], elems);
    b.Heapify(tree, used);
  }

  lemma HeapSetRange(hp: seq<nat>, len: nat, t: seq<CtData>, depth: seq<nat>, elems: nat)
    requires elems <= |t| && elems <= |depth| && HeapSet(hp, len, Used(t, elems))
    ensures InRange(hp, len, t, depth) && multiset(hp[1..len + 1]) == multiset(Used(t, elems))
  {
    Members(hp, len, Used(t, elems));
  }

  lemma PreparedTotal(t0: seq<CtData>, t: seq<CtData>, forced: set<nat>, elems: nat)
    requires Prepared(t0, t, forced, elems)
    ensures Used(t, elems) == Used(t0, elems) + forced && Used(t0, elems) !! forced
    ensures |forced| <= 2
    ensures SumSet(Used(t, elems), AsInt(FreqOf(t))) == FreqSum(Freqs(t0), elems) + |forced|
  {
    hide SumSet, FreqSum;
    var used := Used(t0, elems);
    assert Used(t, elems) == used + forced;
    assert |used + forced| == |used| + |forced|;
    SumSetUnion(used, forced, AsInt(FreqOf(t)));
    SumSetCongruent(used, AsInt(FreqOf(t)), AsInt(FreqOf(t0)));
    FreqSumIsSumSet(t0, elems);
    SumOfOnes(forced, AsInt(FreqOf(t)));
  }

  lemma PreparedFreqs(t0: seq<CtData>, t: seq<CtData>, forced: set<nat>, elems: nat)
    requires Prepared(t0, t, forced, elems)
    ensures forall x :: x in Used(t0, elems) ==> FreqOf(t)(x) == FreqOf(t0)(x) == t0[x].fc
    ensures forall x :: 0 <= x < elems && x !in Used(t0, elems) ==> t0[x].fc == 0
  {
  }

  // Splitting off what the forced codes contribute.
  lemma PreparedBits(t0: seq<CtData>, t: seq<CtData>, forced: set<nat>, elems: nat, lens: seq<nat>, l: nat -> nat,
                     xb: nat -> nat)
    requires Prepared(t0, t, forced, elems) && elems <= |lens|
    requires forall x :: x in Used(t0, elems) ==> l(x) == lens[x]
    ensures SumSet(Used(t, elems), BitsFn(FreqOf(t), l, xb))
         == BitSum(Freqs(t0), lens, xb, elems) + SumSet(forced, BitsFn(FreqOf(t), l, xb))
  {
    hide SumSet, BitSum, FreqOf, FreqSum, AsInt;
    PreparedTotal(t0, t, forced, elems);
    PreparedFreqs(t0, t, forced, elems);
    var used := Used(t0, elems);
    SumSetUnion(used, forced, BitsFn(FreqOf(t), l, xb));
    SumSetCongruent(used, BitsFn(FreqOf(t), l, xb), BitsFn(FreqOf(t0), l, xb));
    BitSumIsSumSet(Freqs(t0), lens, xb, elems, used, FreqOf(t0), l);
  }

  lemma PreparedOptBits(t0: seq<CtData>, t: seq<CtData>, forced: set<nat>, elems: nat, l: nat -> nat, xb: nat -> nat,
                        top: nat)
    requires Prepared(t0, t, forced, elems)
    requires Between(Used(t, elems), l, 1, top) && Space(Used(t, elems), l, top) == Pow2(top)
    requires forall x :: 0 <= x <= 2 ==> xb(x) == 0
    ensures SumSet(forced, BitsFn(FreqOf(t), l, xb)) == |forced|
  {
    hide SumSet, Space, Used, BitsFn, FreqOf;
    PreparedTotal(t0, t, forced, elems);
    forall x | x in forced
      ensures BitsFn(FreqOf(t), l, xb)(x) == 1
    {
      TwoCodes(Used(t, elems), l, top, x);
      OneBit(t, l, xb, x);
    }
    SumOfOnes(forced, BitsFn(FreqOf(t), l, xb));
  }

  lemma PreparedStaticBits(t0: seq<CtData>, t: seq<CtData>, forced: set<nat>, elems: nat, l: nat -> nat, xb: nat -> nat,
                           slen: nat -> int)
    requires Prepared(t0, t, forced, elems)
    requires forall x :: x in forced ==> slen(x) == l(x)
    requires forall x :: 0 <= x <= 2 ==> xb(x) == 0
    ensures SumSet(forced, BitsFn(FreqOf(t), l, xb)) == SumSet(forced, slen)
  {
    SumSetCongruent(forced, BitsFn(FreqOf(t), l, xb), slen);
  }

  // Merge and measure: the lengths of a Huffman tree over the prepared symbols.
  method MeasureTree(b: Builder, tree: array<CtData>, stree: array?<CtData>, extra: seq<nat>, base: nat, elems: nat,
                     maxCode: nat, maxLength: nat, ghost symbols: set<nat>, ghost f: nat -> nat, ghost xb: nat -> nat,
                     ghost sg: nat -> int)
    returns (ghost T: HTree)
    requires b.Valid() && 3 <= elems <= L_CODES && tree.Length == 2 * elems + 1 && elems <= base + |extra|
    requires 1 <= maxLength <= 15 && elems <= Pow2(maxLength)
    requires stree != null ==> stree != tree && elems <= stree.Length
    requires b.optLen < 0x1_0000_0000 && b.staticLen < 0x1_0000_0000
    requires symbols == Used(tree[..], elems) && f == FreqOf(tree[..]) && xb == XbitsFn(extra, base)
    requires sg == StaticFn(stree, f, xb)
    requires b.heapMax == HEAP_SIZE && 2 <= b.heapLen == |symbols| <= elems
    requires HeapHolds(b.heap[..], b.heapLen, symbols, tree[..], b.depth[..])
    requires IsMax(symbols, maxCode)
    requires SumSet(symbols, AsInt(f)) < 0x1_0000
    modifies b, b.heap, b.depth, b.blCount, tree
    ensures Measured(old(tree[..]), tree[..], symbols, f, xb, sg, b.blCount[..], maxLength,
                     old(b.optLen), b.optLen, old(b.staticLen), b.staticLen, T, elems)
  {
    hide SumSet, HeapHolds, Used, IsMax, Complete, CostIsMinimal, TotalCost, DlOf, RarerIsLonger, BitsFn, XbitsFn, StaticFn,
         FreqOf, AsInt, TreeList, WellFormed, Numbered, Leaves, Ids, HuffmanTree.Cost, LeavesKept, ValidRun, Outcome, U32,
         Measured, Huffman, Limited, Grown;
    ghost var t := tree[..];
    UsedBelow(t, elems);
    T := b.MergeAll(tree, elems, symbols);
    HuffmanIs(T, f);
    assert StaticFn(stree, f, xb) == sg;
    ghost var r := Run(T, elems, maxCode, b.heap[b.heapMax..], tree[..], maxLength, f, xb, sg, b.optLen, b.staticLen);
    ghost var tm := tree[..];
    MaxBound(symbols, maxCode, t, elems);
    RunIsValid(r, t, symbols);
    GenBitlen(b, tree, stree, extra, base, maxCode, maxLength, r);
    HuffmanOutcome(r, DlOf(tree[..]), b.blCount[..]);
    KeptByLengths(r, t, tm, tree[..], symbols);
    MeasuredIs(t, tree[..], symbols, f, xb, sg, b.blCount[..], maxLength, r.opt0, b.optLen, r.stat0, b.staticLen, T,
               elems);
  }

  lemma MaxBound(symbols: set<nat>, maxCode: nat, t: seq<CtData>, elems: nat)
    requires elems <= |t| && symbols == Used(t, elems) && IsMax(symbols, maxCode) && |symbols| >= 2
    ensures maxCode < elems && forall x :: x in symbols ==> x <= maxCode
  {
  }

  lemma RunIsValid(r: Run, t: seq<CtData>, symbols: set<nat>)
    requires 1 <= r.top <= 15 && r.opt0 < 0x1_0000_0000 && r.stat0 < 0x1_0000_0000
    requires TreeList(r.hs, r.T, r.t0) && WellFormed(r.T) && Numbered(r.T, r.elems) && Leaves(r.T) == symbols
    requires |symbols| >= 2 && r.maxCode < r.elems < |t| && (forall x :: x in symbols ==> x <= r.maxCode)
    requires LeavesKept(t, r.t0, r.elems, symbols) && r.f == FreqOf(t)
    ensures ValidRun(r)
  {
    hide TreeList, WellFormed, Numbered;
    LeafHasOne(r.T);
  }

  lemma LeafHasOne(T: HTree)
    ensures T.Leaf? ==> |Leaves(T)| == 1
  {
  }

  lemma KeptByLengths(r: Run, t: seq<CtData>, tm: seq<CtData>, t': seq<CtData>, symbols: set<nat>)
    requires ValidRun(r) && LeavesKept(t, tm, r.elems, symbols) && Leaves(r.T) == symbols
    requires |t'| == |tm| && (forall x :: 0 <= x < |tm| ==> t'[x].fc == tm[x].fc)
    requires forall x :: 0 <= x < |tm| && x !in Ids(r.T) ==> t'[x] == tm[x]
    ensures LeavesKept(t, t', r.elems, symbols)
  {
    hide TreeList, WellFormed;
    LeavesAreSmall(r.T, r.elems);
  }

  // ---------- accounting ----------

  lemma OptAccount(t0: seq<CtData>, t: seq<CtData>, t': seq<CtData>, forced: set<nat>, elems: nat, xb: nat -> nat,
                   top: nat, c: seq<nat>, opt0: nat, opt1: nat, opt2: nat)
    requires Prepared(t0, t, forced, elems) && |t'| == |t|
    requires Complete(Used(t, elems), DlOf(t'), c, top)
    requires forall x :: 0 <= x <= 2 ==> xb(x) == 0
    requires opt1 == U32(opt0 - |forced|)
    requires opt2 == U32(opt1 + SumSet(Used(t, elems), BitsFn(FreqOf(t), DlOf(t'), xb)))
    ensures opt2 == U32(opt0 + BitSum(Freqs(t0), Lens(t'), xb, elems))
  {
    hide SumSet, BitSum, BitsFn, FreqOf, Space, U32, Counted, Used, Prepared, Pow2;
    PreparedSize(t0, t, forced, elems);
    DlOfUsed(t0, t', elems);
    PreparedBits(t0, t, forced, elems, Lens(t'), DlOf(t'), xb);
    PreparedOptBits(t0, t, forced, elems, DlOf(t'), xb, top);
    Cancel(opt0, opt1, |forced|, BitSum(Freqs(t0), Lens(t'), xb, elems));
  }

  lemma PreparedSize(t0: seq<CtData>, t: seq<CtData>, forced: set<nat>, elems: nat)
    requires Prepared(t0, t, forced, elems)
    ensures |t| == |t0| && elems <= |t| && forall x :: x in forced ==> x <= 2 && x < elems
  {
  }

  lemma DlOfUsed(t0: seq<CtData>, t': seq<CtData>, elems: nat)
    requires elems <= |t0|
    ensures forall x :: 0 <= x < |t'| ==> DlOf(t')(x) == Lens(t')[x]
    ensures forall x :: x in Used(t0, elems) ==> x < elems
  {
  }

  lemma StaticAccount(t0: seq<CtData>, t: seq<CtData>, st: seq<CtData>, forced: set<nat>, elems: nat, xb: nat -> nat,
                      slen: nat -> int, stat0: nat, stat1: nat, stat2: nat)
    requires Prepared(t0, t, forced, elems) && elems <= |st|
    requires forall x :: x in forced ==> slen(x) == DlOf(st)(x)
    requires forall x :: 0 <= x <= 2 ==> xb(x) == 0
    requires stat1 == U32(stat0 - SumSet(forced, slen))
    requires stat2 == U32(stat1 + SumSet(Used(t, elems), BitsFn(FreqOf(t), DlOf(st), xb)))
    ensures stat2 == U32(stat0 + BitSum(Freqs(t0), Lens(st), xb, elems))
  {
    hide SumSet, BitSum, BitsFn, FreqOf, U32, Used, Prepared;
    PreparedSize(t0, t, forced, elems);
    DlOfUsed(t0, st, elems);
    PreparedBits(t0, t, forced, elems, Lens(st), DlOf(st), xb);
    PreparedStaticBits(t0, t, forced, elems, DlOf(st), xb, slen);
    Cancel(stat0, stat1, SumSet(forced, slen), BitSum(Freqs(t0), Lens(st), xb, elems));
  }

  lemma CodedIsUsed(t: seq<CtData>, t': seq<CtData>, elems: nat, c: seq<nat>, top: nat)
    requires |t'| == |t| && elems <= |t| && Complete(Used(t, elems), DlOf(t'), c, top)
    requires forall x :: 0 <= x < elems && x !in Used(t, elems) ==> t'[x].dl == 0
    ensures CodedSet(Lens(t'), elems) == Used(t, elems)
  {
    hide Counted, Space;
    forall x | x in Used(t, elems)
      ensures x in CodedSet(Lens(t'), elems)
    {
      assert DlOf(t')(x) >= 1;
    }
  }

  lemma QualityIs(t0: seq<CtData>, t: seq<CtData>, t': seq<CtData>, elems: nat, top: nat, forced: set<nat>, T: HTree)
    requires Prepared(t0, t, forced, elems) && |t'| == |t| && CodedSet(Lens(t'), elems) == Used(t, elems)
    requires Huffman(T, Used(t, elems), FreqOf(t)) && Limited(T, Used(t, elems), FreqOf(t), DlOf(t'), top)
    ensures Quality(t0, Lens(t'), elems, top, forced, T)
  {
    hide DlOf, LenFn, ForcedFreq, FreqOf, CodedSet, Used, Prepared, Huffman, Limited;
    PreparedSize(t0, t, forced, elems);
    SameFreqs(t0, t, t', elems, forced);
    PreparedForced(t0, t, forced, elems);
    HuffmanSame(T, Used(t, elems), FreqOf(t), ForcedFreq(t0, forced));
    LimitedSame(T, Used(t, elems), FreqOf(t), DlOf(t'), ForcedFreq(t0, forced), LenFn(Lens(t')), top);
  }

  lemma PreparedForced(t0: seq<CtData>, t: seq<CtData>, forced: set<nat>, elems: nat)
    requires Prepared(t0, t, forced, elems)
    ensures forall x :: x in forced ==> x <= 2 && x < |t0| && t0[x].fc == 0
    ensures forced != {} ==> |Used(t, elems)| == 2
    ensures forall x :: x in Used(t, elems) ==> x in forced || (x < |t0| && t0[x].fc > 0)
  {
  }

  lemma HuffmanSame(T: HTree, s: set<nat>, f: nat -> nat, g: nat -> nat)
    requires Huffman(T, s, f) && forall x :: x in s ==> f(x) == g(x)
    ensures Huffman(T, s, g)
  {
    hide TotalCost, Leaves, WellFormed, SumSet, LowerBounds, Fib, Height;
    Same(s, f, DepthFn(T), g, DepthFn(T), 0);
    MinimalSame(s, f, g, TotalCost(s, f, DepthFn(T)));
    SumSetCongruent(s, AsInt(f), AsInt(g));
  }

  lemma LimitedSame(T: HTree, s: set<nat>, f: nat -> nat, l: nat -> nat, g: nat -> nat, l': nat -> nat, top: nat)
    requires Limited(T, s, f, l, top) && forall x :: x in s ==> f(x) == g(x) && l(x) == l'(x)
    ensures Limited(T, s, g, l', top)
  {
    hide Height, Depth;
  }

  lemma SameFreqs(t0: seq<CtData>, t: seq<CtData>, t': seq<CtData>, elems: nat, forced: set<nat>)
    requires Prepared(t0, t, forced, elems) && |t'| == |t|
    ensures forall x :: x in Used(t, elems) ==> FreqOf(t)(x) == ForcedFreq(t0, forced)(x)
    ensures forall x :: x in Used(t, elems) ==> DlOf(t')(x) == LenFn(Lens(t'))(x)
  {
  }

  lemma MinimalSame(s: set<nat>, f: nat -> nat, g: nat -> nat, cost: int)
    requires CostIsMinimal(s, f, cost) && forall x :: x in s ==> f(x) == g(x)
    ensures CostIsMinimal(s, g, cost)
  {
    hide TotalCost, Fits;
    forall l: nat -> nat, top: nat | Fits(s, l, top)
      ensures TotalCost(s, g, l) >= cost
    {
      Same(s, f, l, g, l, top);
    }
  }

  // Kept lengths after gen_codes.
  lemma SameLengths(a: seq<CtData>, b: seq<CtData>)
    requires |a| == |b| && forall x :: 0 <= x < |a| ==> a[x].dl == b[x].dl
    ensures Lens(a) == Lens(b)
  {
  }

  // Everything but the codes: lengths, counts and totals.
  method AssignLengths(b: Builder, tree: array<CtData>, stree: array?<CtData>, extra: seq<nat>, base: nat, elems: nat,
                       maxLength: nat)
    returns (maxCode: nat, ghost forced: set<nat>, ghost T: HTree)
    requires b.Valid() && 3 <= elems <= L_CODES && tree.Length == 2 * elems + 1 && elems <= base + |extra|
    requires 1 <= maxLength <= 15 && elems <= Pow2(maxLength)
    requires stree != null ==> stree != tree && elems <= stree.Length
    requires b.optLen < 0x1_0000_0000 && b.staticLen < 0x1_0000_0000
    requires forall x :: 0 <= x <= 2 ==> Xbits(extra, base, x) == 0
    requires FreqSum(Freqs(tree[..]), elems) < 0xfffe
    modifies b, b.heap, b.depth, b.blCount, tree
    ensures LengthsFor(old(tree[..]), tree[..], elems, maxLength, maxCode, b.blCount[..])
    ensures Quality(old(tree[..]), Lens(tree[..]), elems, maxLength, forced, T)
    ensures Totals(old(tree[..]), tree[..], stree, XbitsFn(extra, base), elems, old(b.optLen), b.optLen,
                   old(b.staticLen), b.staticLen)
  {
    hide SumSet, HeapHolds, Used, IsMax, Complete, CostIsMinimal, TotalCost, DlOf, RarerIsLonger, BitsFn, XbitsFn, StaticFn,
         FreqOf, AsInt, LeavesKept, U32, Prepared, StaticLen, FreqSum, BitSum, Pow2, Quality, CodedSet, LengthsFor, Totals,
         Measured;
    ghost var t0, opt0, stat0 := tree[..], b.optLen, b.staticLen;
    maxCode, forced := PrepareTree(b, tree, stree, elems);
    PreparedTotal(t0, tree[..], forced, elems);
    T := FinishLengths(b, tree, stree, extra, base, elems, maxCode, maxLength, t0, forced, opt0, stat0);
  }

  method FinishLengths(b: Builder, tree: array<CtData>, stree: array?<CtData>, extra: seq<nat>, base: nat, elems: nat,
                       maxCode: nat, maxLength: nat, ghost t0: seq<CtData>, ghost forced: set<nat>,
                       ghost opt0: nat, ghost stat0: nat)
    returns (ghost T: HTree)
    requires b.Valid() && 3 <= elems <= L_CODES && tree.Length == 2 * elems + 1 && elems <= base + |extra|
    requires 1 <= maxLength <= 15 && elems <= Pow2(maxLength)
    requires stree != null ==> stree != tree && elems <= stree.Length
    requires forall x :: 0 <= x <= 2 ==> Xbits(extra, base, x) == 0
    requires Prepared(t0, tree[..], forced, elems) && stat0 < 0x1_0000_0000
    requires b.heapMax == HEAP_SIZE && 2 <= b.heapLen == |Used(tree[..], elems)| <= elems
    requires HeapHolds(b.heap[..], b.heapLen, Used(tree[..], elems), tree[..], b.depth[..])
    requires IsMax(Used(tree[..], elems), maxCode)
    requires SumSet(Used(tree[..], elems), AsInt(FreqOf(tree[..]))) < 0x1_0000
    requires b.optLen == U32(opt0 - |forced|)
    requires b.staticLen == U32(stat0 - SumSet(forced, StaticLen(stree)))
    modifies b, b.heap, b.depth, b.blCount, tree
    ensures LengthsFor(t0, tree[..], elems, maxLength, maxCode, b.blCount[..])
    ensures Quality(t0, Lens(tree[..]), elems, maxLength, forced, T)
    ensures Totals(t0, tree[..], stree, XbitsFn(extra, base), elems, opt0, b.optLen, stat0, b.staticLen)
  {
    hide SumSet, HeapHolds, Used, IsMax, DlOf, BitsFn, XbitsFn, StaticFn, FreqOf, AsInt, U32, Prepared, StaticLen, Pow2,
         Quality, LengthsFor, Totals, Measured;
    ghost var t, xb, symbols, f := tree[..], XbitsFn(extra, base), Used(tree[..], elems), FreqOf(tree[..]);
    XbitsSmall(extra, base);
    ghost var sg, slen := StaticFn(stree, f, xb), StaticLen(stree);
    ghost var opt1, stat1 := b.optLen, b.staticLen;
    T := MeasureTree(b, tree, stree, extra, base, elems, maxCode, maxLength, symbols, f, xb, sg);
    assert StaticFn(stree, f, xb) == sg && StaticLen(stree) == slen;
    ConcludeLengths(t0, t, tree[..], stree, forced, T, elems, maxLength, maxCode, b.blCount[..],
                    symbols, f, xb, sg, opt0, opt1, b.optLen, stat0, stat1, b.staticLen);
  }

  // What MeasureTree has established, on values.
  ghost predicate Measured(t: seq<CtData>, t1: seq<CtData>, symbols: set<nat>, f: nat -> nat, xb: nat -> nat, sg: nat -> int,
                           c: seq<nat>, top: nat, opt1: nat, opt2: nat, stat1: nat, stat2: nat, T: HTree, elems: nat)
  {
    && Complete(symbols, DlOf(t1), c, top)
    && Huffman(T, symbols, f) && Limited(T, symbols, f, DlOf(t1), top)
    && opt2 == U32(opt1 + SumSet(symbols, BitsFn(f, DlOf(t1), xb)))
    && stat2 == U32(stat1 + SumSet(symbols, sg))
    && LeavesKept(t, t1, elems, symbols)
  }

  lemma MeasuredIs(t: seq<CtData>, t1: seq<CtData>, symbols: set<nat>, f: nat -> nat, xb: nat -> nat, sg: nat -> int,
                   c: seq<nat>, top: nat, opt1: nat, opt2: nat, stat1: nat, stat2: nat, T: HTree, elems: nat)
    requires Complete(symbols, DlOf(t1), c, top)
    requires Huffman(T, symbols, f) && Limited(T, symbols, f, DlOf(t1), top)
    requires opt2 == U32(opt1 + SumSet(symbols, BitsFn(f, DlOf(t1), xb)))
    requires stat2 == U32(stat1 + SumSet(symbols, sg))
    requires LeavesKept(t, t1, elems, symbols)
    ensures Measured(t, t1, symbols, f, xb, sg, c, top, opt1, opt2, stat1, stat2, T, elems)
  {
    hide SumSet, Counted, Space, TotalCost, Fits, U32, DlOf, Huffman, Limited;
  }

  lemma ConcludeLengths(t0: seq<CtData>, t: seq<CtData>, t1: seq<CtData>, stree: array?<CtData>, forced: set<nat>,
                        T: HTree, elems: nat, top: nat, maxCode: nat, c: seq<nat>,
                        symbols: set<nat>, f: nat -> nat, xb: nat -> nat, sg: nat -> int,
                        opt0: nat, opt1: nat, opt2: nat, stat0: nat, stat1: nat, stat2: nat)
    requires Prepared(t0, t, forced, elems) && 1 <= top <= MAX_BITS && stat0 < 0x1_0000_0000
    requires stree != null ==> elems <= stree.Length
    requires forall x :: 0 <= x <= 2 ==> xb(x) == 0
    requires opt1 == U32(opt0 - |forced|) && stat1 == U32(stat0 - SumSet(forced, StaticLen(stree)))
    requires symbols == Used(t, elems) && f == FreqOf(t) && sg == StaticFn(stree, f, xb)
    requires Measured(t, t1, symbols, f, xb, sg, c, top, opt1, opt2, stat1, stat2, T, elems)
    requires IsMax(Used(t, elems), maxCode) && |Used(t, elems)| >= 2
    ensures LengthsFor(t0, t1, elems, top, maxCode, c)
    ensures Quality(t0, Lens(t1), elems, top, forced, T)
    ensures Totals(t0, t1, stree, xb, elems, opt0, opt2, stat0, stat2)
  {
    hide LowerBounds, SumSet, Used, TotalCost, Fits, DlOf, BitsFn, StaticFn, CountFn, Space, FreqOf, U32, StaticLen, BitSum, Pow2,
         CodedSet, StaticTotal, Kraft, Count, ForcedFreq, LenFn, Quality, LengthsFor, Huffman, Limited;
    PreparedSize(t0, t, forced, elems);
    KeptUnused(t0, t, t1, forced, elems);
    OptAccount(t0, t, t1, forced, elems, xb, top, c, opt0, opt1, opt2);
    StaticOutcome(t0, t, stree, forced, elems, xb, stat0, stat1, stat2);
    CodedIsUsed(t, t1, elems, c, top);
    QualityIs(t0, t, t1, elems, top, forced, T);
    LengthsAre(t0, t, t1, forced, elems, top, maxCode, c);
  }

  method BuildTree(b: Builder, tree: array<CtData>, stree: array?<CtData>, extra: seq<nat>, base: nat, elems: nat,
                   maxLength: nat)
    returns (maxCode: nat, ghost forced: set<nat>, ghost T: HTree)
    requires b.Valid() && 3 <= elems <= L_CODES && tree.Length == 2 * elems + 1 && elems <= base + |extra|
    requires 1 <= maxLength <= 15 && elems <= Pow2(maxLength)
    requires stree != null ==> stree != tree && elems <= stree.Length
    requires b.optLen < 0x1_0000_0000 && b.staticLen < 0x1_0000_0000
    requires forall x :: 0 <= x <= 2 ==> Xbits(extra, base, x) == 0
    requires FreqSum(Freqs(tree[..]), elems) < 0xfffe
    modifies b, b.heap, b.depth, b.blCount, tree
    ensures CodeFor(old(tree[..]), tree[..], elems, maxLength, maxCode)
    ensures Quality(old(tree[..]), Lens(tree[..]), elems, maxLength, forced, T)
    ensures Totals(old(tree[..]), tree[..], stree, XbitsFn(extra, base), elems, old(b.optLen), b.optLen,
                   old(b.staticLen), b.staticLen)
  {
    hide U32, FreqSum, BitSum, Pow2, Quality, LengthsFor, CodeFor, Totals, XbitsFn, ValidLengths, CodesSet, Count;
    ghost var t0 := tree[..];
    maxCode, forced, T := AssignLengths(b, tree, stree, extra, base, elems, maxLength);
    ghost var t1, c := tree[..], b.blCount[..];
    LengthsReady(t0, t1, elems, maxLength, maxCode, c);
    PrefixOf(tree[..], maxCode);
    GenCodes(tree, maxCode, b.blCount);
    SameLengths(t1, tree[..]);
    FinalCode(t0, t1, tree[..], elems, maxLength, maxCode, c);
    TotalsSame(t0, t1, tree[..], stree, XbitsFn(extra, base), elems, old(b.optLen), b.optLen, old(b.staticLen), b.staticLen);
  }

  // Adding the static cost, if there is a static tree.
  ghost predicate StaticTotal(stree: array?<CtData>, freqs: seq<nat>, xb: nat -> nat, elems: nat, stat0: nat, stat: nat)
    requires elems <= |freqs|
    reads stree
  {
    if stree == null then stat == stat0
    else elems <= stree.Length && stat == U32(stat0 + BitSum(freqs, Lens(stree[..]), xb, elems))
  }

  // Both totals grow by exactly the bits that the occurrences counted in `t0`
  // take under the lengths in `t` and under the static lengths; forced codes
  // cost nothing.
  ghost predicate Totals(t0: seq<CtData>, t: seq<CtData>, stree: array?<CtData>, xb: nat -> nat, elems: nat,
                         opt0: nat, opt: nat, stat0: nat, stat: nat)
    reads stree
  {
    && elems <= |t0| && elems <= |t|
    && opt == U32(opt0 + BitSum(Freqs(t0), Lens(t), xb, elems))
    && StaticTotal(stree, Freqs(t0), xb, elems, stat0, stat)
  }

  lemma TotalsSame(t0: seq<CtData>, t: seq<CtData>, t': seq<CtData>, stree: array?<CtData>, xb: nat -> nat, elems: nat,
                   opt0: nat, opt: nat, stat0: nat, stat: nat)
    requires Totals(t0, t, stree, xb, elems, opt0, opt, stat0, stat) && Lens(t) == Lens(t') && |t| == |t'|
    ensures Totals(t0, t', stree, xb, elems, opt0, opt, stat0, stat)
  {
  }

  // Lengths and counts as gen_codes expects them.
  ghost predicate LengthsFor(t0: seq<CtData>, t: seq<CtData>, elems: nat, top: nat, maxCode: nat, c: seq<nat>)
  {
    && |t| == |t0| && maxCode < elems <= |t| && t[maxCode].dl > 0
    && (forall n :: maxCode < n < elems ==> t[n].dl == 0)
    && (forall n :: 0 <= n <= maxCode ==> t[n].dl <= top)
    && Kraft(Lens(t[..maxCode + 1]), top) == Pow2(top)
    && ValidLengths(Lens(t[..maxCode + 1]))
    && |c| == 16 && c[0] == 0
    && (forall b :: 1 <= b <= MAX_BITS ==> c[b] == Count(Lens(t[..maxCode + 1]), b))
    && (forall n :: 0 <= n < elems && t0[n].fc > 0 ==> t[n].dl > 0)
  }

  lemma LengthsAre(t0: seq<CtData>, t: seq<CtData>, t1: seq<CtData>, forced: set<nat>, elems: nat, top: nat, maxCode: nat,
                   c: seq<nat>)
    requires Prepared(t0, t, forced, elems) && |t1| == |t| && 1 <= top <= MAX_BITS
    requires Complete(Used(t, elems), DlOf(t1), c, top) && CodedSet(Lens(t1), elems) == Used(t, elems)
    requires IsMax(Used(t, elems), maxCode) && |Used(t, elems)| >= 2
    requires forall x :: 0 <= x < elems && x !in Used(t, elems) ==> t1[x].dl == 0
    ensures LengthsFor(t0, t1, elems, top, maxCode, c)
  {
    hide Kraft, Count, Counted, Between, Space, DlOf, Pow2, ValidLengths;
    MaxBound(Used(t, elems), maxCode, t, elems);
    ReadyForCodes(t1, Used(t, elems), c, top, elems, maxCode);
    forall n | 0 <= n < elems && t0[n].fc > 0
      ensures t1[n].dl > 0
    {
      assert n in Used(t, elems);
      assert n in CodedSet(Lens(t1), elems);
    }
  }

  lemma LengthsReady(t0: seq<CtData>, t: seq<CtData>, elems: nat, top: nat, maxCode: nat, c: seq<nat>)
    requires LengthsFor(t0, t, elems, top, maxCode, c)
    ensures maxCode < elems <= |t| && ValidLengths(Lens(t[..maxCode + 1])) && |c| == 16 && c[0] == 0
    ensures forall b :: 1 <= b <= MAX_BITS ==> c[b] == Count(Lens(t[..maxCode + 1]), b)
  {
    hide Kraft, Count, ValidLengths;
  }

  lemma XbitsSmall(extra: seq<nat>, base: nat)
    requires forall x :: 0 <= x <= 2 ==> Xbits(extra, base, x) == 0
    ensures forall x :: 0 <= x <= 2 ==> XbitsFn(extra, base)(x) == 0
  {
  }

  lemma KeptUnused(t0: seq<CtData>, t: seq<CtData>, t1: seq<CtData>, forced: set<nat>, elems: nat)
    requires Prepared(t0, t, forced, elems) && LeavesKept(t, t1, elems, Used(t, elems))
    ensures |t1| == |t| && forall x :: 0 <= x < elems && x !in Used(t, elems) ==> t1[x].dl == 0
  {
  }

  lemma PrefixOf(t: seq<CtData>, maxCode: nat)
    requires maxCode < |t|
    ensures t[..maxCode + 1] == t[..][..maxCode + 1]
  {
  }

  lemma StaticOutcome(t0: seq<CtData>, t: seq<CtData>, stree: array?<CtData>, forced: set<nat>, elems: nat, xb: nat -> nat,
                      stat0: nat, stat1: nat, stat2: nat)
    requires Prepared(t0, t, forced, elems) && (stree != null ==> elems <= stree.Length) && stat0 < 0x1_0000_0000
    requires forall x :: 0 <= x <= 2 ==> xb(x) == 0
    requires stat1 == U32(stat0 - SumSet(forced, StaticLen(stree)))
    requires stat2 == U32(stat1 + SumSet(Used(t, elems), StaticFn(stree, FreqOf(t), xb)))
    ensures elems <= |t0| && StaticTotal(stree, Freqs(t0), xb, elems, stat0, stat2)
  {
    hide SumSet, BitSum, BitsFn, FreqOf, Used, Prepared, DlOf;
    PreparedSize(t0, t, forced, elems);
    if stree == null {
      SumOfZeros(forced, StaticLen(stree));
      SumOfZeros(Used(t, elems), StaticFn(stree, FreqOf(t), xb));
    } else {
      DlOfUsed(t0, stree[..], elems);
      StaticAccount(t0, t, stree[..], forced, elems, xb, StaticLen(stree), stat0, stat1, stat2);
    }
  }

  lemma FinalCode(t0: seq<CtData>, t1: seq<CtData>, t2: seq<CtData>, elems: nat, top: nat, maxCode: nat, c: seq<nat>)
    requires LengthsFor(t0, t1, elems, top, maxCode, c) && |t2| == |t1|
    requires forall x :: 0 <= x < |t1| ==> t1[x].dl == t2[x].dl
    requires CodesSet(t2, Lens(t1[..maxCode + 1]))
    ensures CodeFor(t0, t2, elems, top, maxCode)
  {
    hide Kraft, ValidLengths, CodesSet, Count;
    assert Lens(t1[..maxCode + 1]) == Lens(t2[..maxCode + 1]);
  }
}
