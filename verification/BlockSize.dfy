/** Predicted sizes: the sums of frequency times length that build_tree adds to
    opt_len and static_len are the numbers of bits that are sent. */
module BlockSize {
  import opened Arith
  import opened Bits
  import opened Rfc1951
  import opened Canonical
  import opened Codes
  import opened NodeLengths
  import opened TreeBuild
  import opened Tables
  import opened Tokens
  import opened Tally
  import RunLength

  // One more occurrence of `s`.
  lemma {:induction false} BitSumBump(f: seq<nat>, f': seq<nat>, lens: seq<nat>, xb: nat -> nat, n: nat, s: nat)
    requires n <= |f| && n <= |f'| && n <= |lens|
    requires forall i :: 0 <= i < n ==> f'[i] == f[i] + if i == s then 1 else 0
    ensures BitSum(f', lens, xb, n) == BitSum(f, lens, xb, n) + if s < n then lens[s] + xb(s) else 0
    decreases n
  {
    if n > 0 {
      BitSumBump(f, f', lens, xb, n - 1, s);
      var c := lens[n - 1] + xb(n - 1);
      assert (f[n - 1] + 1) * c == f[n - 1] * c + c;
    }
  }

  lemma {:induction false} BitSumSame(f: seq<nat>, f': seq<nat>, lens: seq<nat>, xb: nat -> nat, n: nat)
    requires n <= |f| && n <= |f'| && n <= |lens|
    requires forall i :: 0 <= i < n ==> f'[i] == f[i]
    ensures BitSum(f', lens, xb, n) == BitSum(f, lens, xb, n)
    decreases n
  {
    if n > 0 {
      BitSumSame(f, f', lens, xb, n - 1);
    }
  }

  lemma {:induction false} BitSumZero(f: seq<nat>, lens: seq<nat>, xb: nat -> nat, n: nat)
    requires n <= |f| && n <= |lens| && forall i :: 0 <= i < n ==> f[i] == 0
    ensures BitSum(f, lens, xb, n) == 0
    decreases n
  {
    if n > 0 {
      BitSumZero(f, lens, xb, n - 1);
    }
  }

  // ---------- literals, lengths and distances ----------

  ghost function LitFreqs(ts: seq<Token>): (r: seq<nat>)
    requires ValidTokens(ts)
    ensures |r| == 286 && forall s :: 0 <= s < 286 ==> r[s] == CountLit(ts, s)
  {
    seq(286, s requires 0 <= s < 286 => CountLit(ts, s))
  }

  ghost function DistFreqs(ts: seq<Token>): (r: seq<nat>)
    requires ValidTokens(ts)
    ensures |r| == 30 && forall s :: 0 <= s < 30 ==> r[s] == CountDist(ts, s)
  {
    seq(30, s requires 0 <= s < 30 => CountDist(ts, s))
  }

  function LitExtra(): nat -> nat
  {
    XbitsFn(LENGTH_EXTRA, 257)
  }

  function DistanceExtra(): nat -> nat
  {
    XbitsFn(DIST_EXTRA, 0)
  }

  // The lengths `all` of a whole tree begin with the lengths `lens` of a code.
  ghost predicate Extends(all: seq<nat>, lens: seq<nat>, n: nat)
  {
    |all| >= n && forall s :: 0 <= s < n && s < |lens| ==> all[s] == lens[s]
  }

  ghost function Cost(all: seq<nat>, xb: nat -> nat, s: nat): nat
    requires s < |all|
  {
    all[s] + xb(s)
  }

  lemma ExtraIs(t: Token)
    requires ValidToken(t)
    ensures LitExtra()(LitSym(t)) == if t.Match? then LengthBits(t) else 0
    ensures t.Match? ==> DistanceExtra()(DistSym(t)) == DistBits(t)
  {
    hide LengthCode, DistCode;
  }

  lemma TokenCost(lit: seq<nat>, dist: seq<nat>, t: Token, allLit: seq<nat>, allDist: seq<nat>)
    requires ValidToken(t) && TokenCoded(lit, dist, t) && Extends(allLit, lit, 286) && Extends(allDist, dist, 30)
    ensures |TokenBits(lit, dist, t)| ==
            Cost(allLit, LitExtra(), LitSym(t)) + if t.Match? then Cost(allDist, DistanceExtra(), DistSym(t)) else 0
  {
    hide CodeBits, ToBits, LengthCode, DistCode, LitExtra, DistanceExtra, LengthBits, DistBits, LengthField, DistField;
    ExtraIs(t);
  }

  lemma LitFreqsBump(ts: seq<Token>, t: Token, all: seq<nat>)
    requires ValidTokens(ts) && ValidToken(t) && |all| >= 286
    ensures ValidTokens(ts + [t])
    ensures BitSum(LitFreqs(ts + [t]), all, LitExtra(), 286) ==
            BitSum(LitFreqs(ts), all, LitExtra(), 286) + Cost(all, LitExtra(), LitSym(t))
  {
    hide BitSum, CountLit, LitSym, LitExtra;
    forall s | 0 <= s < 286
      ensures LitFreqs(ts + [t])[s] == LitFreqs(ts)[s] + if s == LitSym(t) then 1 else 0
    {
      CountAppend(ts, t, s);
    }
    BitSumBump(LitFreqs(ts), LitFreqs(ts + [t]), all, LitExtra(), 286, LitSym(t));
  }

  lemma DistFreqsBump(ts: seq<Token>, t: Token, all: seq<nat>)
    requires ValidTokens(ts) && ValidToken(t) && |all| >= 30
    ensures ValidTokens(ts + [t])
    ensures BitSum(DistFreqs(ts + [t]), all, DistanceExtra(), 30) ==
            BitSum(DistFreqs(ts), all, DistanceExtra(), 30) + if t.Match? then Cost(all, DistanceExtra(), DistSym(t)) else 0
  {
    hide BitSum, CountDist, DistSym, DistanceExtra;
    forall s | 0 <= s < 30
      ensures DistFreqs(ts + [t])[s] == DistFreqs(ts)[s] + if t.Match? && s == DistSym(t) then 1 else 0
    {
      CountAppend(ts, t, s);
    }
    if t.Match? {
      BitSumBump(DistFreqs(ts), DistFreqs(ts + [t]), all, DistanceExtra(), 30, DistSym(t));
    } else {
      BitSumSame(DistFreqs(ts), DistFreqs(ts + [t]), all, DistanceExtra(), 30);
    }
  }

  lemma {:induction false} TokensSizeIs(lit: seq<nat>, dist: seq<nat>, ts: seq<Token>, allLit: seq<nat>, allDist: seq<nat>,
                                        n: nat)
    requires TokensCoded(lit, dist, ts) && Extends(allLit, lit, 286) && Extends(allDist, dist, 30) && n <= |ts|
    ensures TokensCoded(lit, dist, ts[..n]) && ValidTokens(ts[..n])
    ensures |TokensBits(lit, dist, ts[..n])| ==
            BitSum(LitFreqs(ts[..n]), allLit, LitExtra(), 286) + BitSum(DistFreqs(ts[..n]), allDist, DistanceExtra(), 30)
    decreases n
  {
    hide BitSum, LitFreqs, DistFreqs, TokenBits, LitExtra, DistanceExtra, Cost, Extends, LitSym, DistSym, TokenCoded;
    ExtendsSize(allLit, lit, 286);
    ExtendsSize(allDist, dist, 30);
    if n == 0 {
      NoFreqs(allLit, allDist);
    } else {
      TokensSizeIs(lit, dist, ts, allLit, allDist, n - 1);
      var t := ts[n - 1];
      TokensBitsSnoc(lit, dist, ts, n - 1);
      TokenCost(lit, dist, t, allLit, allDist);
      assert ts[..n] == ts[..n - 1] + [t];
      LitFreqsBump(ts[..n - 1], t, allLit);
      DistFreqsBump(ts[..n - 1], t, allDist);
    }
  }

  lemma ExtendsSize(all: seq<nat>, lens: seq<nat>, n: nat)
    requires Extends(all, lens, n)
    ensures |all| >= n
  {
  }

  lemma NoFreqs(allLit: seq<nat>, allDist: seq<nat>)
    requires |allLit| >= 286 && |allDist| >= 30
    ensures BitSum(LitFreqs([]), allLit, LitExtra(), 286) == 0 && BitSum(DistFreqs([]), allDist, DistanceExtra(), 30) == 0
  {
    BitSumZero(LitFreqs([]), allLit, LitExtra(), 286);
    BitSumZero(DistFreqs([]), allDist, DistanceExtra(), 30);
  }

  // The frequencies counted for a block predict the size of its data.
  lemma DataSize(lit: seq<nat>, dist: seq<nat>, ts: seq<Token>, lt: seq<CtData>, dt: seq<CtData>,
                 allLit: seq<nat>, allDist: seq<nat>)
    requires TokensCoded(lit, dist, ts) && Extends(allLit, lit, 286) && Extends(allDist, dist, 30) && END_BLOCK < |lit|
    requires ValidTokens(ts) && LitsCounted(lt, ts) && DistsCounted(dt, ts)
    ensures |DataBits(lit, dist, ts)| ==
            BitSum(Freqs(lt), allLit, LitExtra(), 286) + BitSum(Freqs(dt), allDist, DistanceExtra(), 30)
  {
    hide BitSum, TokensBits, CountLit, CountDist, CodeBits, Xbits;
    TokensSizeIs(lit, dist, ts, allLit, allDist, |ts|);
    assert ts[..|ts|] == ts;
    BitSumBump(LitFreqs(ts), Freqs(lt), allLit, LitExtra(), 286, END_BLOCK);
    BitSumSame(DistFreqs(ts), Freqs(dt), allDist, DistanceExtra(), 30);
    assert LitExtra()(END_BLOCK) == 0 by { NoExtra(); }
  }

  lemma NoExtra()
    ensures LitExtra()(END_BLOCK) == 0
    ensures forall x :: 0 <= x <= 2 ==> Xbits(LENGTH_EXTRA, 257, x) == 0
    ensures forall x :: 0 <= x <= 2 ==> Xbits(DIST_EXTRA, 0, x) == 0
    ensures forall x :: 0 <= x <= 2 ==> Xbits(BL_EXTRA, 0, x) == 0
  {
  }

  // ---------- code lengths ----------

  const BL_EXTRA: seq<nat> := [0, 0, 0, 0, 0, 0, 0, 0, 0, 0, 0, 0, 0, 0, 0, 0, 2, 3, 7]

  lemma BlExtraIs(s: nat)
    requires s < 19
    ensures XbitsFn(BL_EXTRA, 0)(s) == ClExtra(s)
  {
  }

  ghost function SymFreqs(syms: seq<RunLength.ClSym>): (r: seq<nat>)
    ensures |r| == 19 && forall s :: 0 <= s < 19 ==> r[s] == RunLength.CountSym(syms, s)
  {
    seq(19, s requires 0 <= s < 19 => RunLength.CountSym(syms, s))
  }

  lemma {:induction false} SymsSize(cl: seq<nat>, syms: seq<RunLength.ClSym>)
    requires |cl| == 19 && RunLength.Sendable(cl, syms)
    ensures |RunLength.SymsBits(cl, syms)| == BitSum(SymFreqs(syms), cl, XbitsFn(BL_EXTRA, 0), 19)
    decreases |syms|
  {
    hide BitSum, CodeBits, ToBits, XbitsFn, ClExtra, Pow2;
    var xb := XbitsFn(BL_EXTRA, 0);
    if syms == [] {
      BitSumZero(SymFreqs(syms), cl, xb, 19);
    } else {
      var rest := syms[1..];
      SymsSize(cl, rest);
      BitSumBump(SymFreqs(rest), SymFreqs(syms), cl, xb, 19, syms[0].sym);
      BlExtraIs(syms[0].sym);
    }
  }
}
