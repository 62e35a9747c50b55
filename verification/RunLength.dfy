/** scan_tree and send_tree: the run-length coding of code lengths with the
    symbols of section 3.2.7 of RFC 1951. */
module RunLength {
  import opened Arith
  import opened Bits
  import opened Rfc1951
  import opened Canonical
  import opened Codes
  import opened BitWriter

  // A symbol of the code length alphabet with its repeat count field.
  datatype ClSym = ClSym(sym: nat, extra: nat)

  // Limits on a run of `cur` that follows the length `prev` (-1 at the start).
  function MaxCount(prev: int, cur: nat): nat
  {
    if cur == 0 then 138 else if prev == cur then 6 else 7
  }

  function MinCount(prev: int, cur: nat): nat
  {
    if cur == 0 || prev == cur then 3 else 4
  }

  function Copies(sym: nat, count: nat): (r: seq<ClSym>)
    ensures |r| == count && forall i :: 0 <= i < count ==> r[i] == ClSym(sym, 0)
  {
    seq(count, i => ClSym(sym, 0))
  }

  // The symbols for a run of `count` lengths equal to `cur`.
  function Run(prev: int, cur: nat, count: nat): seq<ClSym>
    requires count >= 1
  {
    if count < MinCount(prev, cur) then Copies(cur, count)
    else if cur != 0 then
      if cur != prev then [ClSym(cur, 0), ClSym(16, count - 4)] else [ClSym(16, count - 3)]
    else if count <= 10 then [ClSym(17, count - 3)]
    else [ClSym(18, count - 11)]
  }

  // The symbols still to come at index `n`, with `count` lengths pending.
  function Rle(lens: seq<nat>, n: nat, prev: int, count: nat): seq<ClSym>
    requires n <= |lens|
    decreases |lens| - n
  {
    if n == |lens| then []
    else if count + 1 < MaxCount(prev, lens[n]) && n + 1 < |lens| && lens[n + 1] == lens[n] then
      Rle(lens, n + 1, prev, count + 1)
    else
      Run(prev, lens[n], count + 1) + Rle(lens, n + 1, lens[n], 0)
  }

  function RleOf(lens: seq<nat>): seq<ClSym>
  {
    Rle(lens, 0, -1, 0)
  }

  // ---------- decoding gives the lengths back ----------

  function Expand(syms: seq<ClSym>, acc: seq<nat>): Option<seq<nat>>
    decreases |syms|
  {
    if syms == [] then Some(acc)
    else
      var acc' :- ClApply(acc, syms[0].sym, syms[0].extra);
      Expand(syms[1..], acc')
  }

  lemma {:induction false} ExpandConcat(a: seq<ClSym>, b: seq<ClSym>, acc: seq<nat>, mid: seq<nat>)
    requires Expand(a, acc) == Some(mid)
    ensures Expand(a + b, acc) == Expand(b, mid)
    decreases |a|
  {
    if a == [] {
      assert a + b == b;
    } else {
      assert (a + b)[1..] == a[1..] + b;
      var acc' := ClApply(acc, a[0].sym, a[0].extra).value;
      ExpandConcat(a[1..], b, acc', mid);
    }
  }

  lemma {:induction false} CopiesExpand(sym: nat, count: nat, acc: seq<nat>)
    requires sym < 16
    ensures Expand(Copies(sym, count), acc) == Some(acc + Repeat(sym, count))
    decreases count
  {
    if count == 0 {
      assert acc + Repeat(sym, 0) == acc;
    } else {
      assert Copies(sym, count)[1..] == Copies(sym, count - 1);
      CopiesExpand(sym, count - 1, acc + [sym]);
      assert acc + [sym] + Repeat(sym, count - 1) == acc + Repeat(sym, count);
    }
  }

  // The last length so far is `prev`, if there is one.
  ghost predicate Follows(acc: seq<nat>, prev: int)
  {
    prev == -1 || (acc != [] && acc[|acc| - 1] == prev)
  }

  lemma ExpandOne(s: ClSym, acc: seq<nat>)
    ensures Expand([s], acc) == ClApply(acc, s.sym, s.extra)
  {
    assert [s][1..] == [];
  }

  lemma ExpandTwo(s: ClSym, r: ClSym, acc: seq<nat>)
    requires s.sym < 16
    ensures Expand([s, r], acc) == ClApply(acc + [s.sym], r.sym, r.extra)
  {
    assert [s, r][1..] == [r];
    ExpandOne(r, acc + [s.sym]);
  }

  lemma RunExpands(prev: int, cur: nat, count: nat, acc: seq<nat>)
    requires 1 <= count <= MaxCount(prev, cur) && cur < 16 && Follows(acc, prev)
    ensures Expand(Run(prev, cur, count), acc) == Some(acc + Repeat(cur, count))
  {
    hide Expand;
    if count < MinCount(prev, cur) {
      CopiesExpand(cur, count, acc);
    } else if cur != 0 {
      if cur != prev {
        ExpandTwo(ClSym(cur, 0), ClSym(16, count - 4), acc);
        assert acc + [cur] + Repeat(cur, count - 1) == acc + Repeat(cur, count);
      } else {
        ExpandOne(ClSym(16, count - 3), acc);
      }
    } else if count <= 10 {
      ExpandOne(ClSym(17, count - 3), acc);
    } else {
      ExpandOne(ClSym(18, count - 11), acc);
    }
  }

  // The state of both loops at index `n`.
  ghost predicate Pending(lens: seq<nat>, n: nat, prev: int, count: nat)
  {
    && count <= n <= |lens|
    && (n == |lens| ==> count == 0)
    && (n < |lens| ==> count < MaxCount(prev, lens[n]) && forall i :: n - count <= i < n ==> lens[i] == lens[n])
  }

  lemma {:induction false} RleExpands(lens: seq<nat>, n: nat, prev: int, count: nat, pre: seq<nat>)
    requires Pending(lens, n, prev, count) && forall i :: 0 <= i < |lens| ==> lens[i] < 16
    requires Follows(pre + lens[..n - count], prev)
    ensures Expand(Rle(lens, n, prev, count), pre + lens[..n - count]) == Some(pre + lens)
    decreases |lens| - n
  {
    hide Expand, ClApply, Run;
    var acc := pre + lens[..n - count];
    if n == |lens| {
      assert lens[..n] == lens;
      assert Expand([], acc) == Some(acc) by { ExpandNone(acc); }
    } else if count + 1 < MaxCount(prev, lens[n]) && n + 1 < |lens| && lens[n + 1] == lens[n] {
      RleExpands(lens, n + 1, prev, count + 1, pre);
    } else {
      var cur := lens[n];
      RunExpands(prev, cur, count + 1, acc);
      var acc' := pre + lens[..n + 1];
      assert acc + Repeat(cur, count + 1) == acc';
      ExpandConcat(Run(prev, cur, count + 1), Rle(lens, n + 1, cur, 0), acc, acc');
      RleExpands(lens, n + 1, cur, 0, pre);
    }
  }

  lemma ExpandNone(acc: seq<nat>)
    ensures Expand([], acc) == Some(acc)
  {
  }

  // Any sequence of lengths, sent after any other lengths, is recovered.
  lemma RleRoundTrip(lens: seq<nat>, pre: seq<nat>)
    requires forall i :: 0 <= i < |lens| ==> lens[i] < 16
    ensures Expand(RleOf(lens), pre) == Some(pre + lens)
  {
    assert pre + lens[..0] == pre;
    RleExpands(lens, 0, -1, 0, pre);
  }

  // ---------- every symbol is in range ----------

  ghost predicate Fit(syms: seq<ClSym>)
  {
    forall i :: 0 <= i < |syms| ==> syms[i].sym <= 18 && syms[i].extra < Pow2(ClExtra(syms[i].sym))
  }

  lemma RunFits(prev: int, cur: nat, count: nat)
    requires 1 <= count <= MaxCount(prev, cur) && cur < 16
    ensures Fit(Run(prev, cur, count)) && |Run(prev, cur, count)| <= count
  {
    Pow2Values();
  }

  lemma {:induction false} RleFits(lens: seq<nat>, n: nat, prev: int, count: nat)
    requires Pending(lens, n, prev, count) && forall i :: 0 <= i < |lens| ==> lens[i] < 16
    ensures Fit(Rle(lens, n, prev, count)) && |Rle(lens, n, prev, count)| <= |lens| - n + count
    decreases |lens| - n
  {
    hide Run;
    if n == |lens| {
    } else if count + 1 < MaxCount(prev, lens[n]) && n + 1 < |lens| && lens[n + 1] == lens[n] {
      RleFits(lens, n + 1, prev, count + 1);
    } else {
      RunFits(prev, lens[n], count + 1);
      RleFits(lens, n + 1, lens[n], 0);
    }
  }

  // ---------- counting symbols ----------

  function CountSym(syms: seq<ClSym>, s: nat): nat
  {
    if syms == [] then 0 else (if syms[0].sym == s then 1 else 0) + CountSym(syms[1..], s)
  }

  lemma {:induction false} CountSymConcat(a: seq<ClSym>, b: seq<ClSym>, s: nat)
    ensures CountSym(a + b, s) == CountSym(a, s) + CountSym(b, s)
    decreases |a|
  {
    if a == [] {
      assert a + b == b;
    } else {
      assert (a + b)[1..] == a[1..] + b;
      CountSymConcat(a[1..], b, s);
    }
  }

  lemma {:induction false} CountCopies(sym: nat, count: nat, s: nat)
    ensures CountSym(Copies(sym, count), s) == if sym == s then count else 0
    decreases count
  {
    if count != 0 {
      assert Copies(sym, count)[1..] == Copies(sym, count - 1);
      CountCopies(sym, count - 1, s);
    }
  }

  lemma CountTwo(a: ClSym, b: ClSym, s: nat)
    ensures CountSym([a, b], s) == (if a.sym == s then 1 else 0) + (if b.sym == s then 1 else 0)
  {
    assert [a, b][1..] == [b];
    assert [b][1..] == [];
    assert CountSym([b], s) == if b.sym == s then 1 else 0;
  }

  lemma {:induction false} CountSymBound(syms: seq<ClSym>, s: nat)
    ensures CountSym(syms, s) <= |syms|
    decreases |syms|
  {
    if syms != [] {
      CountSymBound(syms[1..], s);
    }
  }

  lemma {:induction false} CountSymPositive(syms: seq<ClSym>, i: nat)
    requires i < |syms|
    ensures CountSym(syms, syms[i].sym) > 0
    decreases i
  {
    if i > 0 {
      CountSymPositive(syms[1..], i - 1);
    }
  }

  // ---------- the bits sent ----------

  function SymBits(cl: seq<nat>, s: ClSym): seq<bool>
    requires s.sym < |cl|
  {
    CodeBits(cl, s.sym) + ToBits(s.extra, ClExtra(s.sym))
  }

  ghost predicate Sendable(cl: seq<nat>, syms: seq<ClSym>)
  {
    forall i :: 0 <= i < |syms| ==> syms[i].sym < |cl| && cl[syms[i].sym] > 0 && syms[i].extra < Pow2(ClExtra(syms[i].sym))
  }

  ghost function SymsBits(cl: seq<nat>, syms: seq<ClSym>): seq<bool>
    requires Sendable(cl, syms)
  {
    if syms == [] then [] else SymBits(cl, syms[0]) + SymsBits(cl, syms[1..])
  }

  lemma {:induction false} SymsBitsConcat(cl: seq<nat>, a: seq<ClSym>, b: seq<ClSym>)
    requires Sendable(cl, a) && Sendable(cl, b)
    ensures Sendable(cl, a + b) && SymsBits(cl, a + b) == SymsBits(cl, a) + SymsBits(cl, b)
    decreases |a|
  {
    if a == [] {
      assert a + b == b;
    } else {
      assert (a + b)[1..] == a[1..] + b;
      SymsBitsConcat(cl, a[1..], b);
      ConcatAssoc(SymBits(cl, a[0]), SymsBits(cl, a[1..]), SymsBits(cl, b));
    }
  }

  lemma ReadLengthsStep(cl: seq<nat>, s: seq<bool>, p: nat, n: nat, acc: seq<nat>, x: ClSym, acc': seq<nat>)
    requires ValidLengths(cl) && x.sym < |cl| && cl[x.sym] > 0 && x.extra < Pow2(ClExtra(x.sym))
    requires At(s, p, SymBits(cl, x)) && |acc| < n && ClApply(acc, x.sym, x.extra) == Some(acc')
    ensures p + |SymBits(cl, x)| <= |s|
    ensures ReadLengths(cl, s, p, n, acc) == ReadLengths(cl, s, p + |SymBits(cl, x)|, n, acc')
  {
    hide DecodeSymbol, ClApply, ValidLengths, CodeBits, ToBits;
    AtConcat(s, p, CodeBits(cl, x.sym), ToBits(x.extra, ClExtra(x.sym)));
    DecodeFinds(cl, s, p, x.sym);
    ReadFinds(s, p + cl[x.sym], x.extra, ClExtra(x.sym));
  }

  // A decoder that knows the code length code reads the lengths back.
  lemma {:induction false} ReadLengthsFinds(cl: seq<nat>, syms: seq<ClSym>, s: seq<bool>, p: nat, acc: seq<nat>,
                                            all: seq<nat>)
    requires ValidLengths(cl) && Sendable(cl, syms)
    requires Expand(syms, acc) == Some(all) && At(s, p, SymsBits(cl, syms))
    ensures p + |SymsBits(cl, syms)| <= |s|
    ensures ReadLengths(cl, s, p, |all|, acc) == Some((all, p + |SymsBits(cl, syms)|))
    decreases |syms|
  {
    hide DecodeSymbol, ClApply, ValidLengths, SymBits;
    if syms != [] {
      var x, bits := syms[0], SymsBits(cl, syms[1..]);
      AtConcat(s, p, SymBits(cl, x), bits);
      var acc' := ClApply(acc, x.sym, x.extra).value;
      ExpandGrows(syms[1..], acc', all);
      ReadLengthsStep(cl, s, p, |all|, acc, x, acc');
      ReadLengthsFinds(cl, syms[1..], s, p + |SymBits(cl, x)|, acc', all);
    }
  }

  lemma {:induction false} ExpandGrows(syms: seq<ClSym>, acc: seq<nat>, all: seq<nat>)
    requires Expand(syms, acc) == Some(all)
    ensures |acc| <= |all|
    decreases |syms|
  {
    if syms != [] {
      var acc' := ClApply(acc, syms[0].sym, syms[0].extra).value;
      ExpandGrows(syms[1..], acc', all);
    }
  }

  // ---------- scan_tree ----------

  // The frequencies in `t` plus the symbols still to come are those in `t0`
  // plus all symbols.
  ghost predicate Tallying(t0: seq<CtData>, t: seq<CtData>, all: seq<ClSym>, rest: seq<ClSym>)
  {
    && |t| == |t0| && |t| >= 19
    && (forall s :: 0 <= s < 19 ==> t[s].fc + CountSym(rest, s) == t0[s].fc + CountSym(all, s))
    && (forall s :: 0 <= s < |t| ==> t[s].dl == t0[s].dl)
    && (forall s :: 19 <= s < |t| ==> t[s] == t0[s])
  }

  ghost function Bump(t: seq<CtData>, s: nat, k: nat): seq<CtData>
    requires s < |t|
  {
    t[s := t[s].(fc := t[s].fc + k)]
  }

  // The frequencies after one run.
  ghost function TallyRun(t: seq<CtData>, prev: int, cur: nat, count: nat): seq<CtData>
    requires |t| >= 19 && cur < 16
  {
    if count < MinCount(prev, cur) then Bump(t, cur, count)
    else if cur != 0 then Bump(if cur != prev then Bump(t, cur, 1) else t, 16, 1)
    else if count <= 10 then Bump(t, 17, 1)
    else Bump(t, 18, 1)
  }

  lemma TallyRunCounts(t: seq<CtData>, prev: int, cur: nat, count: nat, s: nat)
    requires |t| >= 19 && cur < 16 && count >= 1 && s < |t|
    ensures TallyRun(t, prev, cur, count)[s] == t[s].(fc := t[s].fc + CountSym(Run(prev, cur, count), s))
  {
    if count < MinCount(prev, cur) {
      CountCopies(cur, count, s);
    } else if cur != 0 && cur != prev {
      CountTwo(ClSym(cur, 0), ClSym(16, count - 4), s);
    } else {
      assert Run(prev, cur, count)[1..] == [];
    }
  }

  lemma TallyStep(t0: seq<CtData>, t: seq<CtData>, all: seq<ClSym>, prev: int, cur: nat, count: nat, rest: seq<ClSym>)
    requires count >= 1 && cur < 16 && Tallying(t0, t, all, Run(prev, cur, count) + rest)
    ensures Tallying(t0, TallyRun(t, prev, cur, count), all, rest)
  {
    hide CountSym, Run, TallyRun;
    var t' := TallyRun(t, prev, cur, count);
    assert |t'| == |t| by { TallyRunSize(t, prev, cur, count); }
    forall s | 0 <= s < |t|
      ensures t'[s].dl == t0[s].dl
      ensures s < 19 ==> t'[s].fc + CountSym(rest, s) == t0[s].fc + CountSym(all, s)
      ensures s >= 19 ==> t'[s] == t0[s]
    {
      TallyRunCounts(t, prev, cur, count, s);
      CountSymConcat(Run(prev, cur, count), rest, s);
      if s >= 19 {
        NoSuchSym(prev, cur, count, s);
      }
    }
  }

  lemma TallyRunSize(t: seq<CtData>, prev: int, cur: nat, count: nat)
    requires |t| >= 19 && cur < 16
    ensures |TallyRun(t, prev, cur, count)| == |t|
  {
  }

  lemma NoSuchSym(prev: int, cur: nat, count: nat, s: nat)
    requires count >= 1 && cur < 16 && s >= 19
    ensures CountSym(Run(prev, cur, count), s) == 0
  {
    if count < MinCount(prev, cur) {
      CountCopies(cur, count, s);
    } else if cur != 0 && cur != prev {
      CountTwo(ClSym(cur, 0), ClSym(16, count - 4), s);
    } else {
      assert Run(prev, cur, count)[1..] == [];
    }
  }

  // No frequency can pass 16 bits while it is below its final value.
  ghost predicate Small(t0: seq<CtData>, all: seq<ClSym>)
  {
    |t0| >= 19 && forall s :: 0 <= s < 19 ==> t0[s].fc + |all| < 0x1_0000
  }

  lemma TallySmall(t0: seq<CtData>, t: seq<CtData>, all: seq<ClSym>, rest: seq<ClSym>)
    requires Tallying(t0, t, all, rest) && Small(t0, all)
    ensures forall s :: 0 <= s < 19 ==> t[s].fc < 0x1_0000
  {
    forall s | 0 <= s < 19
      ensures t[s].fc < 0x1_0000
    {
      CountSymBound(all, s);
    }
  }

  // Count one run in the bit length tree.
  method CountRun(blTree: array<CtData>, prev: int, cur: nat, count: nat)
    requires blTree.Length >= 19 && cur < 16
    requires forall s :: 0 <= s < 19 ==> TallyRun(blTree[..], prev, cur, count)[s].fc < 0x1_0000
    modifies blTree
    ensures blTree[..] == old(TallyRun(blTree[..], prev, cur, count))
  {
    ghost var t := blTree[..];
    var minCount := MinCount(prev, cur);
    if count < minCount {
      assert TallyRun(t, prev, cur, count)[cur].fc < 0x1_0000;
      blTree[cur] := blTree[cur].(fc := U16(blTree[cur].fc + count));
    } else if cur != 0 {
      assert TallyRun(t, prev, cur, count)[16].fc < 0x1_0000;
      if cur != prev {
        assert TallyRun(t, prev, cur, count)[cur].fc < 0x1_0000;
        blTree[cur] := blTree[cur].(fc := U16(blTree[cur].fc + 1));
      }
      blTree[16] := blTree[16].(fc := U16(blTree[16].fc + 1));
    } else if count <= 10 {
      assert TallyRun(t, prev, cur, count)[17].fc < 0x1_0000;
      blTree[17] := blTree[17].(fc := U16(blTree[17].fc + 1));
    } else {
      assert TallyRun(t, prev, cur, count)[18].fc < 0x1_0000;
      blTree[18] := blTree[18].(fc := U16(blTree[18].fc + 1));
    }
  }

  // The lengths with the guard behind them.
  ghost predicate Guarded(t: seq<CtData>, lens: seq<nat>)
  {
    && |lens| >= 1 && |lens| < |t|
    && (forall i :: 0 <= i < |lens| ==> t[i].dl == lens[i] < 16)
    && t[|lens|].dl == 0xffff
  }

  // What the loops of scan_tree and send_tree keep: the next length is known
  // and the limits are those of the current run.
  ghost predicate LoopState(lens: seq<nat>, n: nat, prev: int, count: nat, next: nat, maxCount: nat, minCount: nat)
  {
    && Pending(lens, n, prev, count)
    && next == (if n < |lens| then lens[n] else 0xffff)
    && maxCount == MaxCount(prev, next) && minCount == MinCount(prev, next)
  }

  lemma LoopStart(lens: seq<nat>)
    requires |lens| >= 1
    ensures LoopState(lens, 0, -1, 0, lens[0], if lens[0] == 0 then 138 else 7, if lens[0] == 0 then 3 else 4)
  {
  }

  lemma LoopContinue(lens: seq<nat>, n: nat, prev: int, count: nat, next: nat, maxCount: nat, minCount: nat)
    requires LoopState(lens, n, prev, count, next, maxCount, minCount) && n + 1 < |lens| && lens[n + 1] == next
    requires count + 1 < maxCount
    ensures LoopState(lens, n + 1, prev, count + 1, next, maxCount, minCount)
    ensures Rle(lens, n, prev, count) == Rle(lens, n + 1, prev, count + 1)
  {
  }

  lemma LoopRun(lens: seq<nat>, n: nat, prev: int, count: nat, cur: nat, maxCount: nat, minCount: nat, next: nat)
    requires LoopState(lens, n, prev, count, cur, maxCount, minCount) && n < |lens| && cur < 16
    requires next == if n + 1 < |lens| then lens[n + 1] else 0xffff
    requires !(count + 1 < maxCount && cur == next)
    ensures Rle(lens, n, prev, count) == Run(prev, cur, count + 1) + Rle(lens, n + 1, cur, 0)
    ensures 1 <= count + 1 <= MaxCount(prev, cur)
    ensures LoopState(lens, n + 1, cur, 0, next,
                      if next == 0 then 138 else if cur == next then 6 else 7,
                      if next == 0 then 3 else if cur == next then 3 else 4)
  {
  }

  method ScanTree(tree: array<CtData>, maxCode: nat, blTree: array<CtData>, ghost lens: seq<nat>)
    requires tree != blTree && blTree.Length >= 19 && maxCode + 1 < tree.Length
    requires lens == Lens(tree[..maxCode + 1]) && forall i :: 0 <= i < |lens| ==> lens[i] < 16
    requires Small(blTree[..], RleOf(lens))
    modifies tree, blTree
    ensures Tallying(old(blTree[..]), blTree[..], RleOf(lens), [])
    ensures Guarded(tree[..], lens)
    ensures forall i :: 0 <= i < tree.Length && i != maxCode + 1 ==> tree[i] == old(tree[i])
    ensures tree[maxCode + 1].fc == old(tree[maxCode + 1].fc)
  {
    hide Rle, Run, CountSym, Tallying, Small, LoopState, TallyRun;
    ghost var t0, all := blTree[..], RleOf(lens);
    var prevlen: int := -1;
    var nextlen := tree[0].dl;
    var count, maxCount, minCount := 0, 7, 4;
    if nextlen == 0 {
      maxCount := 138;
      minCount := 3;
    }
    tree[maxCode + 1] := tree[maxCode + 1].(dl := 0xffff);
    LoopStart(lens);
    TallyStart(t0, all);
    var n := 0;
    while n <= maxCode
      invariant 0 <= n <= maxCode + 1 && Guarded(tree[..], lens)
      invariant forall i :: 0 <= i < tree.Length && i != maxCode + 1 ==> tree[i] == old(tree[i])
      invariant tree[maxCode + 1].fc == old(tree[maxCode + 1].fc)
      invariant LoopState(lens, n, prevlen, count, nextlen, maxCount, minCount)
      invariant blTree.Length >= 19 && Tallying(t0, blTree[..], all, Rle(lens, n, prevlen, count))
    {
      LoopNext(lens, n, prevlen, count, nextlen, maxCount, minCount);
      var curlen := nextlen;
      nextlen := tree[n + 1].dl;
      if count + 1 < maxCount && curlen == nextlen {
        LoopContinue(lens, n, prevlen, count, curlen, maxCount, minCount);
        count := count + 1;
        n := n + 1;
        continue;
      }
      LoopRun(lens, n, prevlen, count, curlen, maxCount, minCount, nextlen);
      count := count + 1;
      TallyStep(t0, blTree[..], all, prevlen, curlen, count, Rle(lens, n + 1, curlen, 0));
      TallySmall(t0, TallyRun(blTree[..], prevlen, curlen, count), all, Rle(lens, n + 1, curlen, 0));
      CountRun(blTree, prevlen, curlen, count);
      count := 0;
      prevlen := curlen;
      maxCount := if nextlen == 0 then 138 else if curlen == nextlen then 6 else 7;
      minCount := if nextlen == 0 then 3 else if curlen == nextlen then 3 else 4;
      n := n + 1;
    }
    RleEnd(lens, n, prevlen, count);
  }

  lemma TallyStart(t: seq<CtData>, all: seq<ClSym>)
    requires |t| >= 19
    ensures Tallying(t, t, all, all)
  {
  }

  lemma LoopNext(lens: seq<nat>, n: nat, prev: int, count: nat, next: nat, maxCount: nat, minCount: nat)
    requires LoopState(lens, n, prev, count, next, maxCount, minCount) && n < |lens|
    ensures next == lens[n]
  {
  }

  lemma RleEnd(lens: seq<nat>, n: nat, prev: int, count: nat)
    requires n == |lens|
    ensures Rle(lens, n, prev, count) == []
  {
  }

  // ---------- send_tree ----------

  // SEND_CODE: the canonical code of symbol `c`.
  method SendCode(w: Writer, tree: array<CtData>, c: nat, ghost lens: seq<nat>)
    requires w.Valid() && c < |lens| && c < tree.Length && 0 < lens[c] <= 15
    requires tree[c].dl == lens[c] && CodeSet(tree[c], lens, c)
    modifies w, w.outbuf
    ensures w.Valid()
    ensures w.Sent() == old(w.Sent()) + CodeBits(lens, c)
  {
    hide ToBits, CodeBits, BytesBits;
    w.SendBits(tree[c].fc, tree[c].dl);
  }

  lemma CodeOf(t: seq<CtData>, lens: seq<nat>, c: nat)
    requires CodesSet(t, lens) && c < |lens| && lens[c] > 0
    ensures c < |t| && t[c].dl == lens[c] && CodeSet(t[c], lens, c)
  {
  }

  // Send one symbol of the code length alphabet with its count field.
  method SendSym(w: Writer, blTree: array<CtData>, sym: nat, extra: nat, extraBits: nat, ghost cl: seq<nat>)
    requires w.Valid() && sym < |cl| <= blTree.Length && 0 < cl[sym] <= 15 && CodesSet(blTree[..], cl)
    requires extraBits == ClExtra(sym) && extra < Pow2(extraBits)
    modifies w, w.outbuf
    ensures w.Valid()
    ensures w.Sent() == old(w.Sent()) + SymBits(cl, ClSym(sym, extra))
  {
    hide ToBits, CodeBits, BytesBits, CodesSet, Pow2;
    ghost var s0 := w.Sent();
    CodeOf(blTree[..], cl, sym);
    SendCode(w, blTree, sym, cl);
    if extraBits != 0 {
      w.SendBits(extra, extraBits);
      ConcatAssoc(s0, CodeBits(cl, sym), ToBits(extra, extraBits));
    } else {
      assert ToBits(extra, 0) == [] by { ToBitsNone(extra); }
      assert CodeBits(cl, sym) + [] == CodeBits(cl, sym);
    }
  }

  lemma ToBitsNone(v: nat)
    ensures ToBits(v, 0) == []
  {
  }

  lemma SymsBitsOne(cl: seq<nat>, x: ClSym)
    requires x.sym < |cl| && Sendable(cl, [x])
    ensures SymsBits(cl, [x]) == SymBits(cl, x)
  {
    assert [x][1..] == [];
    assert SymBits(cl, x) + [] == SymBits(cl, x);
  }

  lemma SendableParts(cl: seq<nat>, a: seq<ClSym>, b: seq<ClSym>)
    requires Sendable(cl, a + b)
    ensures Sendable(cl, a) && Sendable(cl, b)
  {
    forall i | 0 <= i < |a|
      ensures a[i].sym < |cl| && cl[a[i].sym] > 0 && a[i].extra < Pow2(ClExtra(a[i].sym))
    {
      assert a[i] == (a + b)[i];
    }
    forall i | 0 <= i < |b|
      ensures b[i].sym < |cl| && cl[b[i].sym] > 0 && b[i].extra < Pow2(ClExtra(b[i].sym))
    {
      assert b[i] == (a + b)[|a| + i];
    }
  }

  ghost predicate ShortCode(cl: seq<nat>)
  {
    forall i :: 0 <= i < |cl| ==> cl[i] <= 15
  }

  lemma SendableOne(cl: seq<nat>, x: ClSym)
    ensures Sendable(cl, [x]) <==> x.sym < |cl| && cl[x.sym] > 0 && x.extra < Pow2(ClExtra(x.sym))
  {
    assert [x][0] == x;
  }

  // Send the same symbol `count` times.
  method SendCopies(w: Writer, blTree: array<CtData>, cur: nat, count: nat, ghost cl: seq<nat>)
    requires w.Valid() && |cl| <= blTree.Length && CodesSet(blTree[..], cl) && ShortCode(cl) && cur < 16 && count >= 1
    requires Sendable(cl, Copies(cur, count))
    modifies w, w.outbuf
    ensures w.Valid()
    ensures w.Sent() == old(w.Sent()) + SymsBits(cl, Copies(cur, count))
  {
    hide CodesSet, SymBits, SymsBits, CodeBits, BytesBits, Writer.Bytes, Writer.Sent, Writer.Valid, Pow2;
    ghost var s0 := w.Sent();
    var left := count;
    ghost var done := [];
    assert Copies(cur, count)[0] == ClSym(cur, 0);
    assert s0 + SymsBits(cl, []) == s0 by { SymsBitsNone(cl); }
    while true
      invariant 1 <= left <= count && w.Valid()
      invariant done == Copies(cur, count - left) && Sendable(cl, done)
      invariant w.Sent() == s0 + SymsBits(cl, done)
      decreases left
    {
      SendSym(w, blTree, cur, 0, 0, cl);
      SendableOne(cl, ClSym(cur, 0));
      SymsBitsOne(cl, ClSym(cur, 0));
      SymsBitsConcat(cl, done, [ClSym(cur, 0)]);
      ConcatAssoc(s0, SymsBits(cl, done), SymBits(cl, ClSym(cur, 0)));
      assert done + [ClSym(cur, 0)] == Copies(cur, count - left + 1);
      done := done + [ClSym(cur, 0)];
      left := left - 1;
      if left == 0 {
        break;
      }
    }
  }

  lemma SymsBitsNone(cl: seq<nat>)
    ensures SymsBits(cl, []) == []
  {
  }

  lemma SymsBitsTwo(cl: seq<nat>, x: ClSym, y: ClSym)
    requires x.sym < |cl| && y.sym < |cl| && Sendable(cl, [x, y])
    ensures Sendable(cl, [x]) && Sendable(cl, [y]) && SymsBits(cl, [x, y]) == SymBits(cl, x) + SymBits(cl, y)
  {
    hide SymsBits, SymBits;
    assert [x] + [y] == [x, y];
    SendableParts(cl, [x], [y]);
    SymsBitsConcat(cl, [x], [y]);
    SymsBitsOne(cl, x);
    SymsBitsOne(cl, y);
  }

  method SendRun(w: Writer, blTree: array<CtData>, prev: int, cur: nat, runLength: nat, ghost cl: seq<nat>)
    requires w.Valid() && |cl| <= blTree.Length && CodesSet(blTree[..], cl) && ShortCode(cl)
    requires cur < 16 && 1 <= runLength <= MaxCount(prev, cur)
    requires Sendable(cl, Run(prev, cur, runLength))
    modifies w, w.outbuf
    ensures w.Valid()
    ensures w.Sent() == old(w.Sent()) + SymsBits(cl, Run(prev, cur, runLength))
  {
    hide CodesSet, SymBits, SymsBits, CodeBits, Pow2, BytesBits, Writer.Bytes, Writer.Sent, Writer.Valid;
    ghost var s0 := w.Sent();
    var count := runLength;
    if count < MinCount(prev, cur) {
      SendCopies(w, blTree, cur, count, cl);
    } else if cur != 0 {
      if cur != prev {
        ghost var x, y := ClSym(cur, 0), ClSym(16, count - 4);
        assert Run(prev, cur, count) == [x, y] && [x, y][0] == x && [x, y][1] == y;
        SymsBitsTwo(cl, x, y);
        SendableOne(cl, x);
        SendableOne(cl, y);
        SendSym(w, blTree, cur, 0, 0, cl);
        count := count - 1;
        SendSym(w, blTree, 16, count - 3, 2, cl);
        ConcatAssoc(s0, SymBits(cl, x), SymBits(cl, y));
      } else {
        SendableOne(cl, ClSym(16, count - 3));
        SymsBitsOne(cl, ClSym(16, count - 3));
        SendSym(w, blTree, 16, count - 3, 2, cl);
      }
    } else if count <= 10 {
      SendableOne(cl, ClSym(17, count - 3));
      SymsBitsOne(cl, ClSym(17, count - 3));
      SendSym(w, blTree, 17, count - 3, 3, cl);
    } else {
      SendableOne(cl, ClSym(18, count - 11));
      SymsBitsOne(cl, ClSym(18, count - 11));
      SendSym(w, blTree, 18, count - 11, 7, cl);
    }
  }

  // `sent` has gone out, `rest` is still to come.
  ghost predicate Sending(cl: seq<nat>, all: seq<ClSym>, rest: seq<ClSym>, start: seq<bool>, sent: seq<bool>)
  {
    Sendable(cl, all) && Sendable(cl, rest) && sent + SymsBits(cl, rest) == start + SymsBits(cl, all)
  }

  lemma SendingRun(cl: seq<nat>, all: seq<ClSym>, run: seq<ClSym>, rest: seq<ClSym>, start: seq<bool>, sent: seq<bool>)
    requires Sending(cl, all, run + rest, start, sent)
    ensures Sendable(cl, run) && Sending(cl, all, rest, start, sent + SymsBits(cl, run))
  {
    hide SymsBits;
    SendableParts(cl, run, rest);
    SymsBitsConcat(cl, run, rest);
    ConcatAssoc(sent, SymsBits(cl, run), SymsBits(cl, rest));
  }

  method SendTree(w: Writer, tree: array<CtData>, maxCode: nat, blTree: array<CtData>, ghost lens: seq<nat>,
                  ghost cl: seq<nat>)
    requires w.Valid() && |cl| <= blTree.Length && CodesSet(blTree[..], cl) && ShortCode(cl)
    requires |lens| == maxCode + 1 && Guarded(tree[..], lens)
    requires Sendable(cl, RleOf(lens))
    modifies w, w.outbuf
    ensures w.Valid()
    ensures w.Sent() == old(w.Sent()) + SymsBits(cl, RleOf(lens))
  {
    hide Rle, Run, LoopState, CodesSet, SymsBits, Sending, Sendable, ShortCode, BytesBits, Writer.Bytes, Writer.Sent,
         Writer.Valid;
    ghost var start, all := w.Sent(), RleOf(lens);
    var prevlen: int := -1;
    var nextlen := tree[0].dl;
    var count, maxCount, minCount := 0, 7, 4;
    if nextlen == 0 {
      maxCount := 138;
      minCount := 3;
    }
    LoopStart(lens);
    SendingStart(cl, all, start);
    var n := 0;
    while n <= maxCode
      invariant 0 <= n <= maxCode + 1 && w.Valid()
      invariant LoopState(lens, n, prevlen, count, nextlen, maxCount, minCount)
      invariant Sending(cl, all, Rle(lens, n, prevlen, count), start, w.Sent())
    {
      LoopNext(lens, n, prevlen, count, nextlen, maxCount, minCount);
      var curlen := nextlen;
      nextlen := tree[n + 1].dl;
      if count + 1 < maxCount && curlen == nextlen {
        LoopContinue(lens, n, prevlen, count, curlen, maxCount, minCount);
        count := count + 1;
        n := n + 1;
        continue;
      }
      LoopRun(lens, n, prevlen, count, curlen, maxCount, minCount, nextlen);
      count := count + 1;
      SendingRun(cl, all, Run(prevlen, curlen, count), Rle(lens, n + 1, curlen, 0), start, w.Sent());
      SendRun(w, blTree, prevlen, curlen, count, cl);
      count := 0;
      prevlen := curlen;
      maxCount := if nextlen == 0 then 138 else if curlen == nextlen then 6 else 7;
      minCount := if nextlen == 0 then 3 else if curlen == nextlen then 3 else 4;
      n := n + 1;
    }
    RleEnd(lens, n, prevlen, count);
    SendingEnd(cl, all, start, w.Sent());
  }

  lemma SendingStart(cl: seq<nat>, all: seq<ClSym>, start: seq<bool>)
    requires Sendable(cl, all)
    ensures Sending(cl, all, all, start, start)
  {
  }

  lemma SendingEnd(cl: seq<nat>, all: seq<ClSym>, start: seq<bool>, sent: seq<bool>)
    requires Sending(cl, all, [], start, sent)
    ensures sent == start + SymsBits(cl, all)
  {
    assert sent + [] == sent;
  }
}
