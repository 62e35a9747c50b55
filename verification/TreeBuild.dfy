/** build_tree as a whole: collect the used symbols, force at least two codes,
    build the Huffman tree, derive lengths and codes. */
module TreeBuild {
  import opened Arith
  import opened Bits
  import opened Rfc1951
  import opened Canonical
  import opened Codes
  import opened Heap
  import opened HuffmanTree
  import opened Optimal
  import opened Forest
  import opened Merging
  import opened MergeEnds
  import opened HeapMerge
  import opened LengthCounts
  import opened NodeLengths
  import opened Reassign
  import opened LengthResult

  // ---------- totals over all symbols ----------

  function Freqs(t: seq<CtData>): (r: seq<nat>)
    ensures |r| == |t| && forall i :: 0 <= i < |t| ==> r[i] == t[i].fc
  {
    seq(|t|, i requires 0 <= i < |t| => t[i].fc)
  }

  // Bits for all occurrences of the first `n` symbols, extra bits included.
  function BitSum(freqs: seq<nat>, lens: seq<nat>, xb: nat -> nat, n: nat): nat
    requires n <= |freqs| && n <= |lens|
  {
    if n == 0 then 0
    else BitSum(freqs, lens, xb, n - 1) + freqs[n - 1] * (lens[n - 1] + xb(n - 1))
  }

  lemma {:induction false} BitSumIsSumSet(freqs: seq<nat>, lens: seq<nat>, xb: nat -> nat, n: nat, s: set<nat>,
                                          f: nat -> nat, l: nat -> nat)
    requires n <= |freqs| && n <= |lens|
    requires forall x :: x in s ==> x < n
    requires forall x :: 0 <= x < n ==> if x in s then f(x) == freqs[x] && l(x) == lens[x] else freqs[x] == 0
    ensures BitSum(freqs, lens, xb, n) == SumSet(s, BitsFn(f, l, xb))
    decreases n
  {
    hide SumSet;
    if n == 0 {
      assert s == {};
      SumEmpty(BitsFn(f, l, xb));
    } else {
      BitSumIsSumSet(freqs, lens, xb, n - 1, s - {n - 1}, f, l);
      if n - 1 in s {
        SumSetRemove(s, n - 1, BitsFn(f, l, xb));
      } else {
        assert s - {n - 1} == s;
      }
    }
  }

  // ---------- collecting the used symbols ----------

  ghost function Used(t: seq<CtData>, n: nat): set<nat>
    requires n <= |t|
  {
    set i | 0 <= i < n && t[i].fc != 0
  }

  // `m` is the largest element of `s`, or -1.
  ghost predicate IsMax(s: set<nat>, m: int)
  {
    if s == {} then m == -1 else 0 <= m && m in s && forall x :: x in s ==> x <= m
  }

  lemma UsedNext(t: seq<CtData>, n: nat)
    requires n < |t|
    ensures Used(t, n + 1) == Used(t, n) + (if t[n].fc != 0 then {n} else {})
    ensures n !in Used(t, n)
  {
  }

  // The first `len` heap entries are exactly the elements of `s`.
  ghost predicate HeapSet(hp: seq<nat>, len: nat, s: set<nat>)
  {
    len < |hp| && multiset(hp[1..len + 1]) == multiset(s)
  }

  lemma HeapSetEmpty(hp: seq<nat>)
    requires |hp| > 0
    ensures HeapSet(hp, 0, {})
  {
    assert hp[1..1] == [];
  }

  lemma HeapSetAdd(hp: seq<nat>, hp': seq<nat>, len: nat, s: set<nat>, x: nat)
    requires HeapSet(hp, len, s) && len + 1 < |hp| && hp' == hp[len + 1 := x] && x !in s
    ensures HeapSet(hp', len + 1, s + {x})
  {
    assert hp'[1..len + 2] == hp[1..len + 1] + [x];
    assert multiset(s + {x}) == multiset(s) + multiset{x};
  }

  lemma HeapSetSize(hp: seq<nat>, len: nat, s: set<nat>)
    requires HeapSet(hp, len, s)
    ensures |s| == len < |hp|
  {
    Members(hp, len, s);
  }

  // heap[++heapLen] = x; depth[x] = 0;
  method PushLeaf(b: Builder, x: nat, ghost s: set<nat>)
    requires b.Valid() && b.heapLen + 1 < HEAP_SIZE && HeapSet(b.heap[..], b.heapLen, s) && x !in s && x < HEAP_SIZE
    modifies b`heapLen, b.heap, b.depth
    ensures b.heapLen == old(b.heapLen) + 1
    ensures HeapSet(b.heap[..], b.heapLen, s + {x})
  {
    hide HeapSet;
    ghost var hp := b.heap[..];
    b.heapLen := b.heapLen + 1;
    b.heap[b.heapLen] := x;
    assert b.heap[..] == hp[b.heapLen := x];
    HeapSetAdd(hp, b.heap[..], b.heapLen - 1, s, x);
    b.depth[x] := 0;
  }

  // The elements after unused ones lost their length.
  ghost predicate Cleared(t0: seq<CtData>, t: seq<CtData>, n: nat)
  {
    && |t| == |t0| && n <= |t|
    && (forall i :: 0 <= i < |t| ==> t[i].fc == t0[i].fc)
    && (forall i :: 0 <= i < n && t[i].fc == 0 ==> t[i].dl == 0)
  }

  method CollectUsed(b: Builder, tree: array<CtData>, elems: nat) returns (maxCode: int)
    requires b.Valid() && elems <= tree.Length && elems <= L_CODES
    modifies b`heapLen, b`heapMax, b.heap, b.depth, tree
    ensures b.heapMax == HEAP_SIZE && b.heapLen <= elems
    ensures Cleared(old(tree[..]), tree[..], elems)
    ensures HeapSet(b.heap[..], b.heapLen, Used(tree[..], elems))
    ensures IsMax(Used(tree[..], elems), maxCode)
  {
    hide Used, Cleared, HeapSet, IsMax;
    b.heapLen := 0;
    b.heapMax := HEAP_SIZE;
    maxCode := -1;
    ghost var t0 := tree[..];
    ClearedStart(t0);
    HeapSetEmpty(b.heap[..]);
    MaxNone();
    var n := 0;
    while n < elems
      invariant 0 <= n <= elems && b.heapLen <= n && b.heapMax == HEAP_SIZE
      invariant Cleared(t0, tree[..], n)
      invariant HeapSet(b.heap[..], b.heapLen, Used(t0, n))
      invariant IsMax(Used(t0, n), maxCode)
    {
      UsedNext(t0, n);
      ClearedNext(t0, tree[..], n);
      if tree[n].fc != 0 {
        UsedBelow(t0, n);
        PushLeaf(b, n, Used(t0, n));
        MaxNext(Used(t0, n), maxCode, n);
        maxCode := n;
      } else {
        assert Used(t0, n + 1) == Used(t0, n);
        tree[n] := tree[n].(dl := 0);
      }
      n := n + 1;
    }
    UsedSame(t0, tree[..], elems);
  }

  lemma MaxNone()
    ensures IsMax({}, -1)
  {
  }

  lemma MaxNext(s: set<nat>, m: int, n: nat)
    requires forall x :: x in s ==> x < n
    ensures IsMax(s + {n}, n)
  {
  }

  lemma ClearedStart(t: seq<CtData>)
    ensures Cleared(t, t, 0)
    ensures Used(t, 0) == {}
  {
  }

  lemma ClearedNext(t0: seq<CtData>, t: seq<CtData>, n: nat)
    requires Cleared(t0, t, n) && n < |t|
    ensures t[n].fc == t0[n].fc
    ensures t[n].fc != 0 ==> Cleared(t0, t, n + 1)
    ensures t[n].fc == 0 ==> Cleared(t0, t[n := t[n].(dl := 0)], n + 1)
  {
  }

  lemma UsedBelow(t: seq<CtData>, n: nat)
    requires n <= |t|
    ensures forall x :: x in Used(t, n) ==> x < n && t[x].fc > 0
  {
  }

  lemma UsedSame(t0: seq<CtData>, t: seq<CtData>, n: nat)
    requires Cleared(t0, t, n)
    ensures Used(t0, n) == Used(t, n)
  {
  }

  // ---------- forcing two codes ----------

  // `t` is `t0` with the symbols `forced` given frequency one.
  ghost predicate Forced(t0: seq<CtData>, t: seq<CtData>, forced: set<nat>, elems: nat)
  {
    && |t| == |t0| && elems <= |t|
    && (forall x :: x in forced ==> x <= 2 && x < elems && t0[x].fc == 0 && t[x].fc == 1)
    && (forall i :: 0 <= i < |t| && i !in forced ==> t[i] == t0[i])
  }

  lemma ForcedUsed(t0: seq<CtData>, t: seq<CtData>, forced: set<nat>, elems: nat)
    requires Forced(t0, t, forced, elems)
    ensures Used(t, elems) == Used(t0, elems) + forced
    ensures Used(t0, elems) !! forced
  {
  }

  // Length of symbol `x` under the static tree, zero if there is none.
  ghost function StaticLen(stree: array?<CtData>): nat -> int
    reads stree
  {
    if stree == null then (x: nat) => 0 else AsInt(DlOf(stree[..]))
  }

  ghost predicate ForceState(t0: seq<CtData>, t: seq<CtData>, forced: set<nat>, elems: nat, heapLen: nat,
                             slen: nat -> int, opt0: nat, opt: nat, stat0: nat, stat: nat)
  {
    && Forced(t0, t, forced, elems)
    && |Used(t0, elems)| + |forced| == heapLen
    && (forced != {} ==> heapLen <= 2)
    && opt == U32(opt0 - |forced|)
    && stat == U32(stat0 - SumSet(forced, slen))
  }

  lemma ForceOne(t0: seq<CtData>, t: seq<CtData>, forced: set<nat>, elems: nat, heapLen: nat, slen: nat -> int,
                 opt0: nat, opt: nat, stat0: nat, stat: nat, x: nat, newStat: nat)
    requires ForceState(t0, t, forced, elems, heapLen, slen, opt0, opt, stat0, stat) && heapLen < 2
    requires newStat == U32(stat - slen(x))
    requires x <= 2 && x < elems && x !in Used(t, elems)
    ensures ForceState(t0, t[x := t[x].(fc := 1)], forced + {x}, elems, heapLen + 1, slen,
                       opt0, U32(opt - 1), stat0, newStat)
  {
    hide SumSet, U32;
    assert x !in forced;
    SumSetAdd(forced, x, slen);
    U32Add(opt0 - |forced|, -1);
    U32Add(stat0 - SumSet(forced, slen), -slen(x));
  }

  lemma ForceStart(t: seq<CtData>, elems: nat, slen: nat -> int, opt: nat, stat: nat)
    requires elems <= |t| && opt < 0x1_0000_0000 && stat < 0x1_0000_0000
    ensures ForceState(t, t, {}, elems, |Used(t, elems)|, slen, opt, opt, stat, stat)
  {
    SumEmpty(slen);
  }

  // The new symbol is not in use yet and is one of 0, 1, 2.
  lemma NewSymbol(s: set<nat>, maxCode: int, size: nat)
    requires IsMax(s, maxCode) && |s| == size < 2
    ensures var x := if maxCode < 2 then maxCode + 1 else 0;
            var m := if maxCode < 2 then maxCode + 1 else maxCode;
            0 <= x <= 2 && x !in s && IsMax(s + {x}, m)
  {
    if maxCode >= 2 {
      OnlyOne(s, maxCode);
    }
  }

  // Give one more symbol a code.
  method ForceCode(b: Builder, tree: array<CtData>, stree: array?<CtData>, elems: nat, maxCode: int,
                   ghost t0: seq<CtData>, ghost forced: set<nat>, ghost slen: nat -> int,
                   ghost opt0: nat, ghost stat0: nat)
    returns (newMax: int, x: nat)
    requires b.Valid() && 3 <= elems <= tree.Length && elems <= L_CODES && b.heapLen < 2
    requires stree != null ==> stree != tree && elems <= stree.Length
    requires slen == StaticLen(stree)
    requires HeapSet(b.heap[..], b.heapLen, Used(tree[..], elems))
    requires IsMax(Used(tree[..], elems), maxCode)
    requires ForceState(t0, tree[..], forced, elems, b.heapLen, slen, opt0, b.optLen, stat0, b.staticLen)
    modifies b`heapLen, b`optLen, b`staticLen, b.heap, b.depth, tree
    ensures b.heapLen == old(b.heapLen) + 1
    ensures HeapSet(b.heap[..], b.heapLen, Used(tree[..], elems))
    ensures IsMax(Used(tree[..], elems), newMax)
    ensures ForceState(t0, tree[..], forced + {x}, elems, b.heapLen, slen, opt0, b.optLen, stat0, b.staticLen)
  {
    hide ForceState, Used, SumSet, HeapSet, IsMax, U32, DlOf, StaticLen;
    ghost var t, used := tree[..], Used(tree[..], elems);
    HeapSetSize(b.heap[..], b.heapLen, used);
    NewSymbol(used, maxCode, b.heapLen);
    StatStays(t0, t, forced, elems, b.heapLen, slen, opt0, b.optLen, stat0, b.staticLen);
    newMax := if maxCode < 2 then maxCode + 1 else maxCode;
    x := if maxCode < 2 then newMax else 0;
    StaticLenAt(stree, x);
    var newStatic := if stree != null then U32(b.staticLen - stree[x].dl) else b.staticLen;
    assert newStatic == U32(b.staticLen - slen(x));
    ForceOne(t0, t, forced, elems, b.heapLen, slen, opt0, b.optLen, stat0, b.staticLen, x, newStatic);
    UsedAdd(t, elems, x);
    PushLeaf(b, x, used);
    tree[x] := tree[x].(fc := 1);
    assert tree[..] == t[x := t[x].(fc := 1)];
    b.optLen := U32(b.optLen - 1);
    b.staticLen := newStatic;
  }

  method ForceTwo(b: Builder, tree: array<CtData>, stree: array?<CtData>, elems: nat, maxCodeIn: int)
    returns (maxCode: nat, ghost forced: set<nat>)
    requires b.Valid() && 3 <= elems <= tree.Length && elems <= L_CODES && b.heapLen <= elems
    requires stree != null ==> stree != tree && elems <= stree.Length
    requires HeapSet(b.heap[..], b.heapLen, Used(tree[..], elems))
    requires IsMax(Used(tree[..], elems), maxCodeIn)
    requires b.optLen < 0x1_0000_0000 && b.staticLen < 0x1_0000_0000
    modifies b`heapLen, b`optLen, b`staticLen, b.heap, b.depth, tree
    ensures 2 <= b.heapLen <= elems
    ensures HeapSet(b.heap[..], b.heapLen, Used(tree[..], elems))
    ensures IsMax(Used(tree[..], elems), maxCode)
    ensures ForceState(old(tree[..]), tree[..], forced, elems, b.heapLen, StaticLen(stree),
                       old(b.optLen), b.optLen, old(b.staticLen), b.staticLen)
  {
    hide ForceState, Used, SumSet, HeapSet, IsMax, U32, DlOf, StaticLen;
    forced := {};
    var m := maxCodeIn;
    ghost var t0, opt0, stat0 := tree[..], b.optLen, b.staticLen;
    ghost var slen := StaticLen(stree);
    HeapSetSize(b.heap[..], b.heapLen, Used(t0, elems));
    ForceStart(t0, elems, slen, opt0, stat0);
    while b.heapLen < 2
      invariant b.heapLen <= elems && slen == StaticLen(stree)
      invariant HeapSet(b.heap[..], b.heapLen, Used(tree[..], elems))
      invariant IsMax(Used(tree[..], elems), m)
      invariant ForceState(t0, tree[..], forced, elems, b.heapLen, slen, opt0, b.optLen, stat0, b.staticLen)
      decreases 2 - b.heapLen
    {
      var x: nat;
      m, x := ForceCode(b, tree, stree, elems, m, t0, forced, slen, opt0, stat0);
      forced := forced + {x};
    }
    MaxIsNat(Used(tree[..], elems), m, b.heap[..], b.heapLen);
    maxCode := m;
  }

  lemma StaticLenAt(stree: array?<CtData>, x: nat)
    requires stree != null ==> x < stree.Length
    ensures StaticLen(stree)(x) == if stree == null then 0 else stree[x].dl
  {
  }

  lemma StatStays(t0: seq<CtData>, t: seq<CtData>, forced: set<nat>, elems: nat, heapLen: nat,
                  slen: nat -> int, opt0: nat, opt: nat, stat0: nat, stat: nat)
    requires ForceState(t0, t, forced, elems, heapLen, slen, opt0, opt, stat0, stat)
    ensures U32(stat - 0) == stat
  {
  }

  lemma UsedAdd(t: seq<CtData>, elems: nat, x: nat)
    requires x < elems <= |t|
    ensures Used(t[x := t[x].(fc := 1)], elems) == Used(t, elems) + {x}
  {
  }

  lemma MaxIsNat(s: set<nat>, m: int, hp: seq<nat>, len: nat)
    requires IsMax(s, m) && 2 <= len && HeapSet(hp, len, s)
    ensures m >= 0
  {
    Members(hp, len, s);
  }
}
