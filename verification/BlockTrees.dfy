/** build_bl_tree and the three trees of a block. */
module BlockTrees {
  import opened Arith
  import opened Bits
  import opened Rfc1951
  import opened Canonical
  import opened Codes
  import HuffmanTree
  import opened HeapMerge
  import opened NodeLengths
  import opened TreeBuild
  import opened HuffmanCode
  import RL = RunLength
  import opened Tables
  import opened Tokens
  import opened Tally
  import opened BlockFormat
  import opened BlockSize

  // ---------- how often symbols occur in all ----------

  lemma {:induction false} FreqSumBump(f: seq<nat>, f': seq<nat>, n: nat, s: nat)
    requires n <= |f| && n <= |f'|
    requires forall i :: 0 <= i < n ==> f'[i] == f[i] + if i == s then 1 else 0
    ensures FreqSum(f', n) == FreqSum(f, n) + if s < n then 1 else 0
    decreases n
  {
    if n > 0 {
      FreqSumBump(f, f', n - 1, s);
    }
  }

  lemma {:induction false} FreqSumZero(f: seq<nat>, n: nat)
    requires n <= |f| && forall i :: 0 <= i < n ==> f[i] == 0
    ensures FreqSum(f, n) == 0
    decreases n
  {
    if n > 0 {
      FreqSumZero(f, n - 1);
    }
  }

  lemma {:induction false} LitFreqSum(ts: seq<Token>)
    requires ValidTokens(ts)
    ensures FreqSum(LitFreqs(ts), 286) == |ts|
    decreases |ts|
  {
    hide FreqSum, CountLit, LitSym;
    if ts == [] {
      assert FreqSum(LitFreqs([]), 286) == 0 by { NoCounts(); FreqSumZero(LitFreqs([]), 286); }
    } else {
      var pre, t := ts[..|ts| - 1], ts[|ts| - 1];
      LitFreqSum(pre);
      assert ts == pre + [t];
      forall s | 0 <= s < 286
        ensures LitFreqs(ts)[s] == LitFreqs(pre)[s] + if s == LitSym(t) then 1 else 0
      {
        CountAppend(pre, t, s);
      }
      FreqSumBump(LitFreqs(pre), LitFreqs(ts), 286, LitSym(t));
    }
  }

  lemma NoCounts()
    ensures forall s :: CountLit([], s) == 0 && CountDist([], s) == 0
  {
  }

  lemma {:induction false} DistFreqSum(ts: seq<Token>)
    requires ValidTokens(ts)
    ensures FreqSum(DistFreqs(ts), 30) <= |ts|
    decreases |ts|
  {
    hide FreqSum, CountDist, DistSym;
    if ts == [] {
      assert FreqSum(DistFreqs([]), 30) == 0 by { NoCounts(); FreqSumZero(DistFreqs([]), 30); }
    } else {
      var pre, t := ts[..|ts| - 1], ts[|ts| - 1];
      DistFreqSum(pre);
      assert ts == pre + [t];
      var sym := if t.Match? then DistSym(t) else 30;
      forall s | 0 <= s < 30
        ensures DistFreqs(ts)[s] == DistFreqs(pre)[s] + if s == sym then 1 else 0
      {
        CountAppend(pre, t, s);
      }
      FreqSumBump(DistFreqs(pre), DistFreqs(ts), 30, sym);
    }
  }

  lemma {:induction false} FreqSumSame(f: seq<nat>, f': seq<nat>, n: nat)
    requires n <= |f| && n <= |f'| && forall i :: 0 <= i < n ==> f'[i] == f[i]
    ensures FreqSum(f', n) == FreqSum(f, n)
    decreases n
  {
    if n > 0 {
      FreqSumSame(f, f', n - 1);
    }
  }

  // Frequencies of a block of fewer than 64K tokens fit the counters.
  lemma LitTotal(lt: seq<CtData>, ts: seq<Token>)
    requires ValidTokens(ts) && LitsCounted(lt, ts) && |ts| < 0x8000
    ensures FreqSum(Freqs(lt), 286) < 0xfffe && lt[END_BLOCK].fc > 0
  {
    hide FreqSum, CountLit;
    LitFreqSum(ts);
    FreqSumBump(LitFreqs(ts), Freqs(lt), 286, END_BLOCK);
  }

  lemma DistTotal(dt: seq<CtData>, ts: seq<Token>)
    requires ValidTokens(ts) && DistsCounted(dt, ts) && |ts| < 0x8000
    ensures FreqSum(Freqs(dt), 30) < 0xfffe
  {
    hide FreqSum, CountDist;
    DistFreqSum(ts);
    FreqSumSame(DistFreqs(ts), Freqs(dt), 30);
  }

  // ---------- what the trees give codes to ----------

  ghost predicate LitCovers(lit: seq<nat>, lt: seq<CtData>)
  {
    |lit| <= 286 <= |lt| && forall s :: 0 <= s < 286 && lt[s].fc > 0 ==> Coded(lit, s)
  }

  ghost predicate DistCovers(dist: seq<nat>, dt: seq<CtData>)
  {
    |dist| <= 30 <= |dt| && forall s :: 0 <= s < 30 && dt[s].fc > 0 ==> Coded(dist, s)
  }

  lemma {:induction false} CountPositive(ts: seq<Token>, i: nat)
    requires ValidTokens(ts) && i < |ts|
    ensures CountLit(ts, LitSym(ts[i])) > 0
    ensures ts[i].Match? ==> CountDist(ts, DistSym(ts[i])) > 0
    decreases |ts|
  {
    hide LitSym, DistSym;
    if i < |ts| - 1 {
      CountPositive(ts[..|ts| - 1], i);
    }
  }

  lemma CoveredTokens(lit: seq<nat>, dist: seq<nat>, lt: seq<CtData>, dt: seq<CtData>, ts: seq<Token>)
    requires ValidTokens(ts) && LitsCounted(lt, ts) && DistsCounted(dt, ts)
    requires LitCovers(lit, lt) && DistCovers(dist, dt)
    ensures TokensCoded(lit, dist, ts) && Coded(lit, END_BLOCK)
  {
    hide CountLit, CountDist, LitSym, DistSym;
    forall i | 0 <= i < |ts|
      ensures ValidToken(ts[i]) && TokenCoded(lit, dist, ts[i])
    {
      CountPositive(ts, i);
    }
  }

  // ---------- the code lengths as a code of their own ----------

  ghost predicate NoFreq(t: seq<CtData>, n: nat)
  {
    n <= |t| && forall i :: 0 <= i < n ==> t[i].fc == 0
  }

  // The frequencies are those of the symbols `syms`.
  ghost predicate SymsCounted(t: seq<CtData>, syms: seq<RL.ClSym>)
  {
    |t| == 39 && forall s :: 0 <= s < 19 ==> t[s].fc == RL.CountSym(syms, s)
  }

  lemma RleSmall(lens: seq<nat>)
    requires forall i :: 0 <= i < |lens| ==> lens[i] < 16
    ensures RL.Fit(RL.RleOf(lens)) && |RL.RleOf(lens)| <= |lens|
  {
    hide RL.Fit, RL.Rle;
    RL.RleFits(lens, 0, -1, 0);
  }

  lemma ScannedOne(t0: seq<CtData>, t: seq<CtData>, a: seq<RL.ClSym>)
    requires |t0| == 39 && NoFreq(t0, 19) && RL.Tallying(t0, t, a, [])
    ensures SymsCounted(t, a)
  {
  }

  lemma ScannedBoth(t0: seq<CtData>, t: seq<CtData>, a: seq<RL.ClSym>, b: seq<RL.ClSym>)
    requires SymsCounted(t0, a) && RL.Tallying(t0, t, b, [])
    ensures SymsCounted(t, a + b)
  {
    hide RL.CountSym;
    assert forall s :: RL.CountSym([], s) == 0 by { NoSyms(); }
    forall s | 0 <= s < 19
      ensures t[s].fc == RL.CountSym(a + b, s)
    {
      RL.CountSymConcat(a, b, s);
    }
  }

  lemma NoSyms()
    ensures forall s :: RL.CountSym([], s) == 0
  {
  }

  lemma {:induction false} SymFreqSum(syms: seq<RL.ClSym>)
    ensures FreqSum(SymFreqs(syms), 19) <= |syms|
    decreases |syms|
  {
    hide FreqSum;
    if syms == [] {
      FreqSumZero(SymFreqs([]), 19);
    } else {
      SymFreqSum(syms[1..]);
      FreqSumBump(SymFreqs(syms[1..]), SymFreqs(syms), 19, syms[0].sym);
    }
  }

  lemma SymsTotal(t: seq<CtData>, syms: seq<RL.ClSym>)
    requires SymsCounted(t, syms) && |syms| < 0xfff
    ensures FreqSum(Freqs(t), 19) < 0xfffe
  {
    hide FreqSum, RL.CountSym;
    SymFreqSum(syms);
    FreqSumSame(SymFreqs(syms), Freqs(t), 19);
  }

  // Symbols that were counted can be sent.
  lemma CountedSendable(t0: seq<CtData>, cl: seq<nat>, all: seq<RL.ClSym>, part: seq<RL.ClSym>)
    requires SymsCounted(t0, all) && RL.Fit(part) && |cl| == 19
    requires forall i :: 0 <= i < |part| ==> part[i] in all
    requires forall s :: 0 <= s < 19 && t0[s].fc > 0 ==> cl[s] > 0
    ensures RL.Sendable(cl, part)
  {
    hide RL.CountSym, Pow2, ClExtra;
    forall i | 0 <= i < |part|
      ensures cl[part[i].sym] > 0
    {
      var j :| 0 <= j < |all| && all[j] == part[i];
      RL.CountSymPositive(all, j);
    }
  }

  // The code stays the same when unused symbols are added behind the last one.
  lemma WholeCode(t: seq<CtData>, elems: nat, top: nat, maxCode: nat)
    requires BuiltCode(t, elems, top, maxCode)
    ensures ValidLengths(Lens(t[..elems])) && CodesSet(t, Lens(t[..elems]))
    ensures forall n :: 0 <= n < elems ==> t[n].dl <= top
  {
    hide Kraft, CodeBits, Count, Pow2, ToBits;
    var lens := Lens(t[..elems]);
    assert lens[..maxCode + 1] == Lens(t[..maxCode + 1]);
    DropUncoded(lens, maxCode + 1, MAX_BITS);
    forall n | 0 <= n < elems && lens[n] > 0
      ensures CodeSet(t[n], lens, n)
    {
      TruncatedCode(lens, maxCode + 1, n);
    }
  }

  // Without a symbol for a non-zero length, all lengths would be zero.
  lemma {:induction false} OnlyZeros(syms: seq<RL.ClSym>, acc: seq<nat>, all: seq<nat>)
    requires RL.Expand(syms, acc) == Some(all)
    requires forall i :: 0 <= i < |syms| ==> syms[i].sym == 0 || syms[i].sym >= 16
    requires forall i :: 0 <= i < |acc| ==> acc[i] == 0
    ensures forall i :: 0 <= i < |all| ==> all[i] == 0
    decreases |syms|
  {
    if syms != [] {
      var acc' := ClApply(acc, syms[0].sym, syms[0].extra).value;
      OnlyZeros(syms[1..], acc', all);
    }
  }

  lemma SomeLengthSent(lens: seq<nat>, n: nat) returns (x: nat)
    requires n < |lens| && lens[n] > 0 && forall i :: 0 <= i < |lens| ==> lens[i] < 16
    ensures x < |RL.RleOf(lens)| && 0 < RL.RleOf(lens)[x].sym < 16
  {
    hide RL.Rle, RL.Expand;
    var syms := RL.RleOf(lens);
    RL.RleRoundTrip(lens, []);
    assert [] + lens == lens;
    if forall i :: 0 <= i < |syms| ==> syms[i].sym == 0 || syms[i].sym >= 16 {
      OnlyZeros(syms, [], lens);
      assert false;
    }
    x :| 0 <= x < |syms| && !(syms[x].sym == 0 || syms[x].sym >= 16);
  }

  // bl_order
  const BL_ORDER: seq<nat> := [16, 17, 18, 0, 8, 7, 9, 6, 10, 5, 11, 4, 12, 3, 13, 2, 14, 1, 15]

  // It is the order of section 3.2.7 of RFC 1951.
  lemma OrderIs(i: nat)
    requires i < 19
    ensures BL_ORDER[i] == ClOrder(i)
  {
  }

  // The number of code lengths to send, at least 4: some code length other
  // than zero has a code.
  method LastBlIndex(blTree: array<CtData>, ghost x: nat) returns (maxBlindex: nat)
    requires blTree.Length == 39 && 0 < x < 16 && blTree[x].dl != 0
    ensures 3 <= maxBlindex <= 18
    ensures ClEnds(Lens(blTree[..19]), maxBlindex + 1)
    ensures maxBlindex > 3 ==> blTree[ClOrder(maxBlindex)].dl != 0
  {
    hide ClOrder, ClRank;
    assert 3 <= ClRank(x) && ClOrder(ClRank(x)) == x by { RankOrder(x); LateRank(x); }
    var k := 18;
    while k >= 3
      invariant 2 <= k <= 18
      invariant forall i :: k < i < 19 ==> blTree[ClOrder(i)].dl == 0
    {
      OrderIs(k);
      if blTree[BL_ORDER[k]].dl != 0 {
        break;
      }
      k := k - 1;
    }
    maxBlindex := k;
  }

  lemma LateRank(x: nat)
    requires 0 < x < 16
    ensures ClRank(x) >= 3
  {
  }

  // ---------- the trees for the data ----------

  lemma {:induction false} TokensBound(lit: seq<nat>, dist: seq<nat>, ts: seq<Token>)
    requires TokensCoded(lit, dist, ts) && ValidLengths(lit) && ValidLengths(dist)
    ensures |TokensBits(lit, dist, ts)| <= 48 * |ts|
    decreases |ts|
  {
    hide TokenBits, TokenCoded, Kraft, Pow2;
    if ts != [] {
      TokenBound(lit, dist, ts[0]);
      TokensBound(lit, dist, ts[1..]);
    }
  }

  lemma FewExtra(c: nat)
    ensures c < 29 ==> LengthExtra(c) <= 5
    ensures c < 30 ==> DistExtra(c) <= 13
  {
  }

  lemma TokenBound(lit: seq<nat>, dist: seq<nat>, t: Token)
    requires ValidToken(t) && TokenCoded(lit, dist, t) && ValidLengths(lit) && ValidLengths(dist)
    ensures |TokenBits(lit, dist, t)| <= 48
  {
    hide Kraft, Pow2, ToBits, CodeBits, LengthCode, DistCode, LengthExtra, DistExtra, LengthField, DistField;
    if t.Match? {
      FewExtra(LengthCode(t.length - 3));
      FewExtra(DistSym(t));
    }
  }

  // A block has no more data than a 32-bit counter can hold.
  lemma DataBound(lit: seq<nat>, dist: seq<nat>, ts: seq<Token>)
    requires TokensCoded(lit, dist, ts) && ValidLengths(lit) && ValidLengths(dist) && END_BLOCK < |lit| && |ts| < 0x8000
    ensures |DataBits(lit, dist, ts)| < 0x20_0000
  {
    hide Kraft, Pow2, TokensBits, CodeBits, TokensCoded;
    TokensBound(lit, dist, ts);
  }

  // A tree as build_tree leaves it: its code is `lens`, and every symbol that
  // occurs in `t0` has one.
  ghost predicate TreeReady(t0: seq<CtData>, t: seq<CtData>, lens: seq<nat>, elems: nat)
  {
    && 1 <= |lens| <= elems <= |t0| && |t| == |t0| && lens == Lens(t[..|lens|]) && lens[|lens| - 1] > 0
    && ValidLengths(lens) && CodesSet(t, lens)
    && (forall s :: 0 <= s < elems && t0[s].fc > 0 ==> Coded(lens, s))
  }

  lemma ReadyTree(t0: seq<CtData>, t: seq<CtData>, elems: nat, top: nat, maxCode: nat)
    requires CodeFor(t0, t, elems, top, maxCode)
    ensures maxCode < |t| && TreeReady(t0, t, Lens(t[..maxCode + 1]), elems)
    ensures Extends(Lens(t), Lens(t[..maxCode + 1]), elems)
  {
    hide Kraft, ValidLengths, CodesSet;
  }

  lemma StaticExtends(sl: seq<CtData>, sd: seq<CtData>)
    requires CodesSet(sl, FixedLit()) && CodesSetIn(sd, FixedDist()) && |sl| == 288 && |sd| == 30
    ensures Extends(Lens(sl), FixedLit(), 286) && Extends(Lens(sd), FixedDist(), 30)
  {
    hide ToBits, CodeBits, Pow2;
  }

  // The two trees that send_all_trees and compress_block use.
  ghost predicate DataReady(lt: seq<CtData>, dt: seq<CtData>, lit: seq<nat>, dist: seq<nat>, ts: seq<Token>)
  {
    && 257 <= |lit| <= 286 && 1 <= |dist| <= 30 && |lt| == 573 && |dt| == 61
    && lit == Lens(lt[..|lit|]) && dist == Lens(dt[..|dist|])
    && lit[|lit| - 1] > 0
    && ValidLengths(lit) && ValidLengths(dist) && CodesSet(lt, lit) && CodesSet(dt, dist)
    && TokensCoded(lit, dist, ts) && Coded(lit, END_BLOCK)
  }

  lemma BothReady(lt0: seq<CtData>, lt: seq<CtData>, dt0: seq<CtData>, dt: seq<CtData>, lit: seq<nat>, dist: seq<nat>,
                  ts: seq<Token>)
    requires TreeReady(lt0, lt, lit, 286) && TreeReady(dt0, dt, dist, 30) && |lt0| == 573 && |dt0| == 61
    requires ValidTokens(ts) && LitsCounted(lt0, ts) && DistsCounted(dt0, ts)
    ensures DataReady(lt, dt, lit, dist, ts)
  {
    hide ValidLengths, CodesSet, CountLit, CountDist, TokensCoded;
    CoveredTokens(lit, dist, lt0, dt0, ts);
  }

  // Both predicted sizes after the first two trees.
  lemma DataTotals(lt0: seq<CtData>, lt: seq<CtData>, dt0: seq<CtData>, dt: seq<CtData>, sl: array<CtData>, sd: array<CtData>,
                   lit: seq<nat>, dist: seq<nat>, ts: seq<Token>, opt1: nat, opt2: nat, stat1: nat, stat2: nat)
    requires DataReady(lt, dt, lit, dist, ts) && |ts| < 0x8000
    requires Extends(Lens(lt), lit, 286) && Extends(Lens(dt), dist, 30)
    requires ValidTokens(ts) && LitsCounted(lt0, ts) && DistsCounted(dt0, ts)
    requires sl.Length == 288 && sd.Length == 30 && CodesSet(sl[..], FixedLit()) && CodesSetIn(sd[..], FixedDist())
    requires Totals(lt0, lt, sl, LitExtra(), 286, 0, opt1, 0, stat1)
    requires Totals(dt0, dt, sd, DistanceExtra(), 30, opt1, opt2, stat1, stat2)
    ensures opt2 == |DataBits(lit, dist, ts)|
    ensures TokensCoded(FixedLit(), FixedDist(), ts) && stat2 == |DataBits(FixedLit(), FixedDist(), ts)|
  {
    hide BitSum, DataBits, LitExtra, DistanceExtra, TokensCoded, CodesSet, CodesSetIn, LitsCounted, DistsCounted, ValidLengths,
         Extends, FixedLit, FixedDist, Lens, Freqs;
    DataSize(lit, dist, ts, lt0, dt0, Lens(lt), Lens(dt));
    DataBound(lit, dist, ts);
    FixedCoded(ts);
    FixedLitValid();
    FixedDistValid();
    StaticExtends(sl[..], sd[..]);
    DataSize(FixedLit(), FixedDist(), ts, lt0, dt0, Lens(sl[..]), Lens(sd[..]));
    DataBound(FixedLit(), FixedDist(), ts);
  }

  lemma TotalsRange(t0: seq<CtData>, t: seq<CtData>, stree: array?<CtData>, xb: nat -> nat, elems: nat,
                    opt0: nat, opt: nat, stat0: nat, stat: nat)
    requires Totals(t0, t, stree, xb, elems, opt0, opt, stat0, stat)
    ensures opt < 0x1_0000_0000 && (stree != null ==> stat < 0x1_0000_0000)
  {
    hide BitSum;
  }

  lemma CodeSize(t0: seq<CtData>, t: seq<CtData>, elems: nat, top: nat, maxCode: nat)
    requires CodeFor(t0, t, elems, top, maxCode)
    ensures |t| == |t0| && maxCode < elems
  {
    hide Kraft, ValidLengths, CodesSet;
  }

  // The literal or length symbol `s` occurs in the block.
  ghost predicate UsesLit(ts: seq<Token>, s: nat)
  {
    exists i :: 0 <= i < |ts| && ValidToken(ts[i]) && LitSym(ts[i]) == s
  }

  // Only symbols that occur have a code, apart from the first three, which may get
  // one so that there are two.
  ghost predicate OnlyUsed(lit: seq<nat>, ts: seq<Token>)
  {
    forall s :: 3 <= s < |lit| && s != END_BLOCK && lit[s] > 0 ==> UsesLit(ts, s)
  }

  lemma {:induction false} CountedOccurs(ts: seq<Token>, s: nat)
    requires ValidTokens(ts) && CountLit(ts, s) > 0
    ensures UsesLit(ts, s)
    decreases |ts|
  {
    hide LitSym;
    var n := |ts| - 1;
    if LitSym(ts[n]) != s {
      CountedOccurs(ts[..n], s);
      var i :| 0 <= i < n && ValidToken(ts[..n][i]) && LitSym(ts[..n][i]) == s;
      assert ts[i] == ts[..n][i];
    }
  }

  lemma OnlyUsedIs(lt0: seq<CtData>, lt: seq<CtData>, maxL: nat, forced: set<nat>, T: HuffmanTree.HTree, ts: seq<Token>)
    requires ValidTokens(ts) && LitsCounted(lt0, ts) && |lt| == 573 && maxL < 286
    requires Quality(lt0, Lens(lt), 286, 15, forced, T)
    ensures OnlyUsed(Lens(lt[..maxL + 1]), ts)
  {
    hide Huffman, Limited, CountLit, UsesLit;
    var lit := Lens(lt[..maxL + 1]);
    forall s | 3 <= s < |lit| && s != END_BLOCK && lit[s] > 0
      ensures UsesLit(ts, s)
    {
      assert s in CodedSet(Lens(lt), 286);
      CountedOccurs(ts, s);
    }
  }

  method BuildDataTrees(b: Builder, dynL: array<CtData>, dynD: array<CtData>, staticL: array<CtData>, staticD: array<CtData>,
                        ghost ts: seq<Token>)
    returns (maxL: nat, maxD: nat, ghost lit: seq<nat>, ghost dist: seq<nat>)
    requires b.Valid() && b.optLen == 0 && b.staticLen == 0
    requires dynL.Length == 573 && dynD.Length == 61 && staticL.Length == 288 && staticD.Length == 30
    requires CodesSet(staticL[..], FixedLit()) && CodesSetIn(staticD[..], FixedDist())
    requires ValidTokens(ts) && |ts| < 0x8000 && LitsCounted(dynL[..], ts) && DistsCounted(dynD[..], ts)
    modifies b, b.heap, b.depth, b.blCount, dynL, dynD
    ensures |lit| == maxL + 1 && |dist| == maxD + 1 && DataReady(dynL[..], dynD[..], lit, dist, ts)
    ensures OnlyUsed(lit, ts)
    ensures b.optLen == |DataBits(lit, dist, ts)|
    ensures TokensCoded(FixedLit(), FixedDist(), ts) && b.staticLen == |DataBits(FixedLit(), FixedDist(), ts)|
  {
    hide CodesSet, CodesSetIn, LitsCounted, DistsCounted, FreqSum, Pow2, Quality, CodeFor, Totals, XbitsFn, Xbits, Extends,
         DataReady, TreeReady, DataBits, FixedLit, FixedDist, TokensCoded, Freqs, OnlyUsed;
    ghost var lt0, dt0 := dynL[..], dynD[..];
    LitTotal(lt0, ts);
    DistTotal(dt0, ts);
    NoExtra();
    assert Pow2(15) == 0x8000 by { Pow2Values(); }
    ghost var forced, T;
    maxL, forced, T := BuildTree(b, dynL, staticL, LENGTH_EXTRA, 257, 286, 15);
    ghost var lt, opt1, stat1 := dynL[..], b.optLen, b.staticLen;
    CodeSize(lt0, lt, 286, 15, maxL);
    OnlyUsedIs(lt0, lt, maxL, forced, T, ts);
    TotalsRange(lt0, lt, staticL, XbitsFn(LENGTH_EXTRA, 257), 286, 0, opt1, 0, stat1);
    maxD, forced, T := BuildTree(b, dynD, staticD, DIST_EXTRA, 0, 30, 15);
    ghost var dt := dynD[..];
    ReadyTree(lt0, lt, 286, 15, maxL);
    ReadyTree(dt0, dt, 30, 15, maxD);
    lit, dist := Lens(lt[..maxL + 1]), Lens(dt[..maxD + 1]);
    BothReady(lt0, lt, dt0, dt, lit, dist, ts);
    DataTotals(lt0, lt, dt0, dt, staticL, staticD, lit, dist, ts, opt1, b.optLen, stat1, b.staticLen);
  }

  // ---------- the tree for the code lengths ----------

  lemma {:induction false} BitSumLens(f: seq<nat>, f': seq<nat>, lens: seq<nat>, lens': seq<nat>, xb: nat -> nat, n: nat)
    requires n <= |f| && n <= |f'| && n <= |lens| && n <= |lens'|
    requires forall i :: 0 <= i < n ==> f[i] == f'[i] && lens[i] == lens'[i]
    ensures BitSum(f, lens, xb, n) == BitSum(f', lens', xb, n)
    decreases n
  {
    if n > 0 {
      BitSumLens(f, f', lens, lens', xb, n - 1);
    }
  }

  lemma {:induction false} SymsBound(cl: seq<nat>, syms: seq<RL.ClSym>)
    requires RL.Sendable(cl, syms) && forall i :: 0 <= i < |cl| ==> cl[i] <= 7
    ensures |RL.SymsBits(cl, syms)| <= 14 * |syms|
    decreases |syms|
  {
    hide CodeBits, ToBits, Pow2;
    if syms != [] {
      SymsBound(cl, syms[1..]);
    }
  }

  // Setting the guard behind the last length leaves the code as it is.
  lemma GuardKeeps(t: seq<CtData>, t': seq<CtData>, lens: seq<nat>)
    requires |t'| == |t| && |lens| <= |t| && lens == Lens(t[..|lens|]) && CodesSet(t, lens)
    requires forall i :: 0 <= i < |t| && i != |lens| ==> t'[i] == t[i]
    ensures lens == Lens(t'[..|lens|]) && CodesSet(t', lens)
  {
    hide CodeBits, ToBits, Pow2;
  }

  lemma ShortLengths(lens: seq<nat>)
    requires ValidLengths(lens)
    ensures forall i :: 0 <= i < |lens| ==> lens[i] < 16
  {
    hide Kraft, Pow2;
  }

  lemma SmallStart(t: seq<CtData>, lit: seq<nat>)
    requires NoFreq(t, 19) && ValidLengths(lit) && |lit| <= 286
    ensures RL.Small(t, RL.RleOf(lit))
  {
    hide Kraft, Pow2, RL.RleOf, RL.Fit;
    RleSmall(lit);
  }

  lemma SmallNext(t: seq<CtData>, lit: seq<nat>, dist: seq<nat>)
    requires ValidLengths(lit) && |lit| <= 286 && SymsCounted(t, RL.RleOf(lit)) && ValidLengths(dist) && |dist| <= 30
    ensures RL.Small(t, RL.RleOf(dist))
  {
    hide Kraft, Pow2, RL.RleOf, RL.Fit, RL.CountSym;
    RleSmall(lit);
    RleSmall(dist);
    forall s | 0 <= s < 19
      ensures RL.CountSym(RL.RleOf(lit), s) <= 286
    {
      RL.CountSymBound(RL.RleOf(lit), s);
    }
  }

  // The three trees together, ready to be sent.
  ghost predicate TreesReady(lt: seq<CtData>, dt: seq<CtData>, bt: seq<CtData>, lit: seq<nat>, dist: seq<nat>, cl: seq<nat>,
                             k: nat)
  {
    && DynamicCodes(lit, dist, cl, k)
    && RL.Guarded(lt, lit) && RL.Guarded(dt, dist) && CodesSet(bt, cl) && RL.ShortCode(cl)
  }

  lemma BlTotal(t: seq<CtData>, lit: seq<nat>, dist: seq<nat>)
    requires ValidLengths(lit) && |lit| <= 286 && ValidLengths(dist) && |dist| <= 30
    requires SymsCounted(t, RL.RleOf(lit) + RL.RleOf(dist))
    ensures FreqSum(Freqs(t), 19) < 0xfffe
  {
    hide Kraft, Pow2, RL.RleOf, RL.Fit, RL.CountSym, FreqSum;
    RleSmall(lit);
    RleSmall(dist);
    SymsTotal(t, RL.RleOf(lit) + RL.RleOf(dist));
  }

  // Everything the decoder needs of the code length code, except how many
  // lengths are sent.
  ghost predicate BlReady(bt: seq<CtData>, cl: seq<nat>, lit: seq<nat>, dist: seq<nat>)
  {
    && |cl| == 19 && |bt| == 39 && cl == Lens(bt[..19]) && ValidLengths(cl) && CodesSet(bt, cl)
    && (forall x :: 0 <= x < 19 ==> cl[x] < 8)
    && RL.Sendable(cl, RL.RleOf(lit)) && RL.Sendable(cl, RL.RleOf(dist))
  }

  lemma BlCode(t0: seq<CtData>, t: seq<CtData>, maxCode: nat, lit: seq<nat>, dist: seq<nat>)
    requires CodeFor(t0, t, 19, 7, maxCode)
    requires ValidLengths(lit) && ValidLengths(dist)
    requires SymsCounted(t0, RL.RleOf(lit) + RL.RleOf(dist))
    ensures BlReady(t, Lens(t[..19]), lit, dist)
  {
    hide Kraft, Pow2, RL.RleOf, RL.Fit, ValidLengths, CodesSet, RL.Sendable, SymsCounted;
    ShortLengths(lit);
    ShortLengths(dist);
    RleSmall(lit);
    RleSmall(dist);
    CountedSize(t0, RL.RleOf(lit) + RL.RleOf(dist));
    WholeCode(t, 19, 7, maxCode);
    var cl := Lens(t[..19]);
    CountedSendable(t0, cl, RL.RleOf(lit) + RL.RleOf(dist), RL.RleOf(lit));
    CountedSendable(t0, cl, RL.RleOf(lit) + RL.RleOf(dist), RL.RleOf(dist));
  }

  lemma CountedSize(t: seq<CtData>, syms: seq<RL.ClSym>)
    requires SymsCounted(t, syms)
    ensures |t| == 39
  {
  }

  // A code length other than zero that has a code.
  lemma SomeLengthCoded(cl: seq<nat>, lit: seq<nat>) returns (x: nat)
    requires lit != [] && lit[|lit| - 1] > 0 && ValidLengths(lit) && RL.Sendable(cl, RL.RleOf(lit))
    ensures 0 < x < 16 && x < |cl| && cl[x] != 0
  {
    hide Kraft, Pow2, RL.RleOf;
    var i := SomeLengthSent(lit, |lit| - 1);
    x := RL.RleOf(lit)[i].sym;
  }

  lemma BlSize(t0: seq<CtData>, t: seq<CtData>, lit: seq<nat>, dist: seq<nat>, cl: seq<nat>, k: nat, opt0: nat, opt: nat,
               stat0: nat, stat: nat)
    requires SymsCounted(t0, RL.RleOf(lit) + RL.RleOf(dist)) && BlReady(t, cl, lit, dist) && DynamicCodes(lit, dist, cl, k)
    requires Totals(t0, t, null, XbitsFn(BL_EXTRA, 0), 19, opt0, opt, stat0, stat) && opt0 < 0x20_0000
    ensures stat == stat0 && opt + 3 * k + 14 == opt0 + |TreesBits(lit, dist, cl, k)| < 0x40_0000
  {
    hide Kraft, Pow2, RL.RleOf, RL.Sendable, BitSum, RL.SymsBits, RL.Fit, CodesSet, ValidLengths, ToBits, ClBits, CountBits,
         XbitsFn, RL.CountSym;
    var a, b := RL.RleOf(lit), RL.RleOf(dist);
    RL.SymsBitsConcat(cl, a, b);
    SymsSize(cl, a + b);
    SymsBound(cl, a + b);
    ShortLengths(lit);
    ShortLengths(dist);
    RleSmall(lit);
    RleSmall(dist);
    BitSumLens(Freqs(t0), SymFreqs(a + b), Lens(t), cl, XbitsFn(BL_EXTRA, 0), 19);
  }

  lemma AllReady(lt: seq<CtData>, dt: seq<CtData>, bt: seq<CtData>, lit: seq<nat>, dist: seq<nat>, cl: seq<nat>, k: nat,
                 ts: seq<Token>)
    requires DataReady(lt, dt, lit, dist, ts) && BlReady(bt, cl, lit, dist) && ClEnds(cl, k) && 4 <= k <= 19
    requires RL.Guarded(lt, lit) && RL.Guarded(dt, dist)
    ensures TreesReady(lt, dt, bt, lit, dist, cl, k)
  {
    hide Kraft, Pow2, RL.RleOf, RL.Sendable, CodesSet, ValidLengths, ClEnds, RL.Guarded, TokensCoded;
  }

  lemma StillReady(lt: seq<CtData>, lt': seq<CtData>, dt: seq<CtData>, dt': seq<CtData>, lit: seq<nat>, dist: seq<nat>,
                   ts: seq<Token>)
    requires DataReady(lt, dt, lit, dist, ts) && |lt'| == |lt| && |dt'| == |dt|
    requires forall i :: 0 <= i < |lt| && i != |lit| ==> lt'[i] == lt[i]
    requires forall i :: 0 <= i < |dt| && i != |dist| ==> dt'[i] == dt[i]
    ensures DataReady(lt', dt', lit, dist, ts)
  {
    hide CodesSet, ValidLengths, TokensCoded;
    GuardKeeps(lt, lt', lit);
    GuardKeeps(dt, dt', dist);
  }

  // The tree for the code lengths that were counted.
  method BuildCountedTree(b: Builder, blTree: array<CtData>, ghost lit: seq<nat>, ghost dist: seq<nat>)
    requires b.Valid() && b.optLen < 0x20_0000 && b.staticLen < 0x20_0000 && blTree.Length == 39
    requires SymsCounted(blTree[..], RL.RleOf(lit) + RL.RleOf(dist))
    requires ValidLengths(lit) && ValidLengths(dist) && |lit| <= 286 && |dist| <= 30
    modifies b, b.heap, b.depth, b.blCount, blTree
    ensures BlReady(blTree[..], Lens(blTree[..][..19]), lit, dist)
    ensures Totals(old(blTree[..]), blTree[..], null, XbitsFn(BL_EXTRA, 0), 19, old(b.optLen), b.optLen, old(b.staticLen),
        b.staticLen)
  {
    hide RL.RleOf, CodeFor, Totals, Quality, FreqSum, Pow2, XbitsFn, Xbits, BlReady, SymsCounted, ValidLengths, Freqs, Lens;
    ghost var t0 := blTree[..];
    BlTotal(t0, lit, dist);
    NoExtra();
    assert Pow2(7) == 128 by { Pow2Values(); }
    var maxCode;
    ghost var forced, T;
    maxCode, forced, T := BuildTree(b, blTree, null, BL_EXTRA, 0, 19, 7);
    BlCode(t0, blTree[..], maxCode, lit, dist);
  }

  method BuildBlTree(b: Builder, dynL: array<CtData>, maxL: nat, dynD: array<CtData>, maxD: nat, blTree: array<CtData>,
                     ghost lit: seq<nat>, ghost dist: seq<nat>, ghost ts: seq<Token>)
    returns (maxBlindex: nat, ghost cl: seq<nat>)
    requires b.Valid() && b.optLen < 0x20_0000 && b.staticLen < 0x20_0000
    requires dynL.Length == 573 && dynD.Length == 61 && blTree.Length == 39 && NoFreq(blTree[..], 19)
    requires |lit| == maxL + 1 && |dist| == maxD + 1 && DataReady(dynL[..], dynD[..], lit, dist, ts)
    modifies b, b.heap, b.depth, b.blCount, dynL, dynD, blTree
    ensures DataReady(dynL[..], dynD[..], lit, dist, ts)
    ensures TreesReady(dynL[..], dynD[..], blTree[..], lit, dist, cl, maxBlindex + 1)
    ensures b.optLen == old(b.optLen) + |TreesBits(lit, dist, cl, maxBlindex + 1)| < 0x40_0000
    ensures b.staticLen == old(b.staticLen)
  {
    hide RL.RleOf, RL.Small, RL.Tallying, DataReady, TreesReady, CodeFor, Totals, Quality, FreqSum, Pow2, XbitsFn, Xbits, BlReady,
         ClEnds, SymsCounted, NoFreq, ValidLengths, TreesBits, DynamicCodes, RL.Guarded, Freqs, Lens;
    ghost var opt0, stat0 := b.optLen, b.staticLen;
    ScanBoth(dynL, maxL, dynD, maxD, blTree, lit, dist, ts);
    ghost var t0 := blTree[..];
    assert ValidLengths(lit) && ValidLengths(dist) && |lit| <= 286 && |dist| <= 30 && lit[|lit| - 1] > 0 by {
      ReadySizes(dynL[..], dynD[..], lit, dist, ts);
    }
    BuildCountedTree(b, blTree, lit, dist);
    cl := Lens(blTree[..][..19]);
    ghost var x := BlSomeLength(blTree[..], cl, lit, dist);
    assert blTree[..][..19] == blTree[..19];
    maxBlindex := LastBlIndex(blTree, x);
    AllReady(dynL[..], dynD[..], blTree[..], lit, dist, cl, maxBlindex + 1, ts);
    ReadyCodes(dynL[..], dynD[..], blTree[..], lit, dist, cl, maxBlindex + 1);
    BlSize(t0, blTree[..], lit, dist, cl, maxBlindex + 1, opt0, b.optLen, stat0, b.staticLen);
    b.optLen := U32(b.optLen + 3 * (maxBlindex + 1) + 5 + 5 + 4);
  }

  lemma BlSomeLength(bt: seq<CtData>, cl: seq<nat>, lit: seq<nat>, dist: seq<nat>) returns (x: nat)
    requires BlReady(bt, cl, lit, dist) && lit != [] && lit[|lit| - 1] > 0 && ValidLengths(lit)
    ensures 0 < x < 16 && x < |bt| && bt[x].dl != 0
  {
    hide CodesSet, ValidLengths, RL.RleOf, RL.Sendable;
    x := SomeLengthCoded(cl, lit);
  }

  lemma ReadyCodes(lt: seq<CtData>, dt: seq<CtData>, bt: seq<CtData>, lit: seq<nat>, dist: seq<nat>, cl: seq<nat>, k: nat)
    requires TreesReady(lt, dt, bt, lit, dist, cl, k)
    ensures DynamicCodes(lit, dist, cl, k)
  {
    hide DynamicCodes;
  }

  lemma ReadySizes(lt: seq<CtData>, dt: seq<CtData>, lit: seq<nat>, dist: seq<nat>, ts: seq<Token>)
    requires DataReady(lt, dt, lit, dist, ts)
    ensures ValidLengths(lit) && ValidLengths(dist) && 257 <= |lit| <= 286 && 1 <= |dist| <= 30 && lit[|lit| - 1] > 0
    ensures |lt| == 573 && |dt| == 61 && lit == Lens(lt[..|lit|]) && dist == Lens(dt[..|dist|])
    ensures CodesSet(lt, lit) && CodesSet(dt, dist) && TokensCoded(lit, dist, ts) && Coded(lit, END_BLOCK)
  {
  }

  // scan_tree on both trees.
  method ScanBoth(dynL: array<CtData>, maxL: nat, dynD: array<CtData>, maxD: nat, blTree: array<CtData>,
                  ghost lit: seq<nat>, ghost dist: seq<nat>, ghost ts: seq<Token>)
    requires dynL.Length == 573 && dynD.Length == 61 && blTree.Length == 39 && NoFreq(blTree[..], 19)
    requires |lit| == maxL + 1 && |dist| == maxD + 1 && DataReady(dynL[..], dynD[..], lit, dist, ts)
    modifies dynL, dynD, blTree
    ensures DataReady(dynL[..], dynD[..], lit, dist, ts)
    ensures RL.Guarded(dynL[..], lit) && RL.Guarded(dynD[..], dist)
    ensures SymsCounted(blTree[..], RL.RleOf(lit) + RL.RleOf(dist))
  {
    hide RL.RleOf, RL.Small, RL.Tallying, DataReady, SymsCounted, NoFreq, ValidLengths, RL.Guarded, CodesSet, TokensCoded;
    ghost var lt, dt, bt := dynL[..], dynD[..], blTree[..];
    ReadySizes(lt, dt, lit, dist, ts);
    ShortLengths(lit);
    ShortLengths(dist);
    SmallStart(bt, lit);
    assert dynL[..maxL + 1] == lt[..|lit|] && dynD[..maxD + 1] == dt[..|dist|];
    RL.ScanTree(dynL, maxL, blTree, lit);
    ScannedOne(bt, blTree[..], RL.RleOf(lit));
    ghost var bt1 := blTree[..];
    SmallNext(bt1, lit, dist);
    RL.ScanTree(dynD, maxD, blTree, dist);
    ScannedBoth(bt1, blTree[..], RL.RleOf(lit), RL.RleOf(dist));
    StillReady(lt, dynL[..], dt, dynD[..], lit, dist, ts);
  }
}
