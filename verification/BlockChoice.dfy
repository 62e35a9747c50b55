/** How good flush_block's choice between the three forms of a block is. */
module BlockChoice {
  import opened Arith
  import opened Bits
  import opened BitWriter
  import opened Rfc1951
  import opened Canonical
  import RL = RunLength
  import opened Tokens
  import opened BlockFormat
  import opened BlockTrees
  import opened Blocks

  // ---------- in general ----------

  // flush_block picks the stored form.
  ghost predicate Stores(eof: bool, ts: seq<Token>, data: Option<seq<Byte>>, c: BlockCodes)
    requires c.Serves(ts)
  {
    data.Some? && |data.value| + 4 <= InBytes(|StaticBlock(eof, ts)|) && |data.value| + 4 <= InBytes(|c.Dynamic(eof, ts)|)
  }

  // No form that is possible takes fewer than `n` bits.
  ghost predicate AtLeast(n: nat, eof: bool, p: nat, ts: seq<Token>, data: Option<seq<Byte>>, c: BlockCodes)
    requires c.Serves(ts) && (data.Some? ==> |data.value| < 0x1_0000)
  {
    && |StaticBlock(eof, ts)| >= n && |c.Dynamic(eof, ts)| >= n
    && (data.Some? ==> |StoredBlock(eof, p, data.value)| >= n)
  }

  // The size of a stored block: header, padding, two lengths and the data.
  lemma StoredSize(eof: bool, p: nat, bytes: seq<Byte>)
    requires |bytes| < 0x1_0000
    ensures |StoredBlock(eof, p, bytes)| == 3 + Padding(p + 3) + 32 + 8 * |bytes|
  {
  }

  lemma RoundedUp(bits: nat, n: nat)
    ensures n <= InBytes(bits) <==> 8 * n <= bits + 7
    ensures InBytes(bits) < n <==> bits + 8 <= 8 * n
  {
  }

  lemma RoundedOrder(a: nat, b: nat)
    ensures InBytes(a) <= InBytes(b) ==> a <= b + 7
    ensures InBytes(a) < InBytes(b) ==> a < b
  {
  }

  // What is sent takes at most 17 bits more than any other form would.
  lemma NearlyShortest(x: seq<bool>, eof: bool, p: nat, ts: seq<Token>, data: Option<seq<Byte>>, c: BlockCodes)
    requires c.Serves(ts) && (data.Some? ==> |data.value| < 0x1_0000) && Chosen(x, eof, p, ts, data, c)
    ensures |x| <= 17 || AtLeast(|x| - 17, eof, p, ts, data, c)
  {
    hide BlockCodes.Serves, StaticBlock, BlockCodes.Dynamic, StoredBlock, InBytes;
    Compared(eof, p, ts, data, c);
  }

  // Whether it is the shortest: always when the dynamic form was picked; a static
  // block when no longer than the dynamic one in bits, too; and a stored block when
  // its header and padding are counted, too.
  lemma ShortestIff(x: seq<bool>, eof: bool, p: nat, ts: seq<Token>, data: Option<seq<Byte>>, c: BlockCodes)
    requires c.Serves(ts) && (data.Some? ==> |data.value| < 0x1_0000) && Chosen(x, eof, p, ts, data, c)
    ensures AtLeast(|x|, eof, p, ts, data, c) <==>
            var stat, dyn := |StaticBlock(eof, ts)|, |c.Dynamic(eof, ts)|;
            if Stores(eof, ts, data, c) then
              var n := 3 + Padding(p + 3) + 32 + 8 * |data.value|;
              n <= stat && n <= dyn
            else InBytes(stat) == InBytes(dyn) ==> stat <= dyn
    // A block that is not stored is shorter than the stored form would be.
    ensures !Stores(eof, ts, data, c) && data.Some? ==> |x| < |StoredBlock(eof, p, data.value)|
  {
    hide BlockCodes.Serves, StaticBlock, BlockCodes.Dynamic, StoredBlock, InBytes, Padding;
    Compared(eof, p, ts, data, c);
  }

  // All comparisons of sizes, rounded and not.
  lemma Compared(eof: bool, p: nat, ts: seq<Token>, data: Option<seq<Byte>>, c: BlockCodes)
    requires c.Serves(ts) && (data.Some? ==> |data.value| < 0x1_0000)
    ensures var stat, dyn := |StaticBlock(eof, ts)|, |c.Dynamic(eof, ts)|;
            && (InBytes(stat) <= InBytes(dyn) ==> stat <= dyn + 7) && (InBytes(dyn) < InBytes(stat) ==> dyn < stat)
            && (InBytes(stat) < InBytes(dyn) ==> stat < dyn)
            && (data.Some? ==>
                  var n, m := |data.value| + 4, |StoredBlock(eof, p, data.value)|;
                  && m == 3 + Padding(p + 3) + 32 + 8 * |data.value|
                  && (n <= InBytes(stat) ==> m <= stat + 17) && (n <= InBytes(dyn) ==> m <= dyn + 17)
                  && (InBytes(stat) < n ==> stat < m) && (InBytes(dyn) < n ==> dyn < m))
  {
    hide BlockCodes.Serves, StaticBlock, BlockCodes.Dynamic, StoredBlock, InBytes;
    ServesFixed(c, ts);
    var stat, dyn := |StaticBlock(eof, ts)|, |c.Dynamic(eof, ts)|;
    RoundedOrder(stat, dyn);
    RoundedOrder(dyn, stat);
    if data.Some? {
      StoredSize(eof, p, data.value);
      RoundedUp(stat, |data.value| + 4);
      RoundedUp(dyn, |data.value| + 4);
    }
  }

  // ---------- what code lengths cost ----------

  lemma KraftNext(lens: seq<nat>, n: nat)
    requires n < |lens|
    ensures Kraft(lens[..n + 1], 15) == Kraft(lens[..n], 15) + if 0 < lens[n] <= 15 then Pow2(15 - lens[n]) else 0
  {
    assert lens[..n + 1][..n] == lens[..n];
  }

  lemma {:induction false} KraftMono(lens: seq<nat>, a: nat, b: nat)
    requires a <= b <= |lens|
    ensures Kraft(lens[..a], 15) <= Kraft(lens[..b], 15)
    decreases b
  {
    hide Kraft;
    if a < b {
      KraftMono(lens, a, b - 1);
      KraftNext(lens, b - 1);
    }
  }

  // A line below the curve of 2^-l that touches it at 4 and 5.
  lemma Tangent(l: nat)
    requires 1 <= l <= 15
    ensures 1024 * l + Pow2(15 - l) >= 6144
  {
    Pow2Values();
  }

  // ---------- what the run lengths of a code cost ----------

  // Four lengths in a row between `a` and `b` are never all equal.
  ghost predicate Varied(lens: seq<nat>, a: nat, b: nat)
  {
    b <= |lens| && forall i :: a <= i && i + 3 < b ==> !(lens[i] == lens[i + 1] == lens[i + 2] == lens[i + 3])
  }

  // How many of the first `n` positions are between `a` and `b`.
  function Covered(n: nat, a: nat, b: nat): nat
    requires a <= b
  {
    if n <= a then 0 else if n <= b then n - a else b - a
  }

  lemma RepeatAt(acc: seq<nat>, v: nat, n: nat, lens: seq<nat>, i: nat)
    requires acc + Repeat(v, n) <= lens && |acc| <= i < |acc| + n
    ensures lens[i] == v
  {
    assert lens[i] == (acc + Repeat(v, n))[i];
  }

  lemma RepeatOverlap(acc: seq<nat>, v: nat, n: nat, lens: seq<nat>, a: nat, b: nat)
    requires a <= b && Varied(lens, a, b) && acc + Repeat(v, n) <= lens
    ensures Covered(|acc| + n, a, b) <= Covered(|acc|, a, b) + 3
  {
    var i := if |acc| <= a then a else |acc|;
    if i + 3 < b && i + 3 < |acc| + n {
      RepeatAt(acc, v, n, lens, i);
      RepeatAt(acc, v, n, lens, i + 1);
      RepeatAt(acc, v, n, lens, i + 2);
      RepeatAt(acc, v, n, lens, i + 3);
    }
  }

  lemma {:induction false} ExpandGrows(syms: seq<RL.ClSym>, acc: seq<nat>)
    ensures RL.Expand(syms, acc).Some? ==> acc <= RL.Expand(syms, acc).value
    decreases |syms|
  {
    if syms != [] {
      var r := ClApply(acc, syms[0].sym, syms[0].extra);
      if r.Some? {
        ExpandGrows(syms[1..], r.value);
      }
    }
  }

  // One symbol takes at least a bit for each varied length it stands for.
  lemma SymCost(cl: seq<nat>, s: RL.ClSym, acc: seq<nat>, lens: seq<nat>, a: nat, b: nat)
    requires s.sym < |cl| == 19 && cl[s.sym] > 0 && a <= b && Varied(lens, a, b)
    requires ClApply(acc, s.sym, s.extra).Some? && ClApply(acc, s.sym, s.extra).value <= lens
    ensures |RL.SymBits(cl, s)| + Covered(|acc|, a, b) >= Covered(|ClApply(acc, s.sym, s.extra).value|, a, b)
  {
    hide CodeBits, ToBits, Varied;
    if s.sym >= 16 {
      var v, n := if s.sym == 16 then acc[|acc| - 1] else 0, (if s.sym == 18 then 11 else 3) + s.extra;
      RepeatOverlap(acc, v, n, lens, a, b);
    }
  }

  lemma {:induction false} SymsCost(cl: seq<nat>, syms: seq<RL.ClSym>, acc: seq<nat>, lens: seq<nat>, a: nat, b: nat)
    requires |cl| == 19 && RL.Sendable(cl, syms) && RL.Expand(syms, acc) == Some(lens) && a <= b && Varied(lens, a, b)
    ensures |RL.SymsBits(cl, syms)| + Covered(|acc|, a, b) >= Covered(|lens|, a, b)
    decreases |syms|
  {
    hide ClApply, Varied, RL.SymBits, Covered;
    if syms != [] {
      var acc' := ClApply(acc, syms[0].sym, syms[0].extra).value;
      ExpandGrows(syms[1..], acc');
      SymCost(cl, syms[0], acc, lens, a, b);
      SymsCost(cl, syms[1..], acc', lens, a, b);
    }
  }

  // ---------- a block that had better not be stored ----------

  // 22 bytes for which the fixed code has nine bits each.
  const COUNT: nat := 22

  function Sparse(i: nat): Byte
    requires i < COUNT
  {
    144 + 4 * i
  }

  function SparseBytes(): (r: seq<Byte>)
    ensures |r| == COUNT && forall i :: 0 <= i < COUNT ==> r[i] == Sparse(i)
  {
    seq(COUNT, i requires 0 <= i < COUNT => Sparse(i))
  }

  function SparseTokens(): (r: seq<Token>)
    ensures |r| == COUNT && forall i :: 0 <= i < COUNT ==> r[i] == Literal(Sparse(i))
  {
    seq(COUNT, i requires 0 <= i < COUNT => Literal(Sparse(i)))
  }

  // Sum of the lengths of the first `n` of them.
  function LengthSum(lens: seq<nat>, n: nat): nat
    requires n <= COUNT && |lens| >= 257
  {
    if n == 0 then 0 else LengthSum(lens, n - 1) + lens[Sparse(n - 1)]
  }

  lemma {:induction false} SparseSize(lit: seq<nat>, dist: seq<nat>, n: nat)
    requires |lit| >= 257 && TokensCoded(lit, dist, SparseTokens()) && n <= COUNT
    ensures TokensCoded(lit, dist, SparseTokens()[..n])
    ensures |TokensBits(lit, dist, SparseTokens()[..n])| == LengthSum(lit, n)
    decreases n
  {
    hide TokensBits, CodeBits, SparseTokens;
    if n == 0 {
      NoBits(lit, dist);
    } else {
      SparseSize(lit, dist, n - 1);
      TokensBitsSnoc(lit, dist, SparseTokens(), n - 1);
      assert SparseTokens()[n - 1] == Literal(Sparse(n - 1));
    }
  }

  lemma NoBits(lit: seq<nat>, dist: seq<nat>)
    ensures TokensBits(lit, dist, []) == [] && SparseTokens()[..0] == []
  {
  }

  lemma {:induction false} LengthsBelow(lit: seq<nat>, n: nat)
    requires |lit| >= 257 && n <= COUNT && forall i :: 0 <= i < n ==> 1 <= lit[Sparse(i)] <= 15
    ensures 1024 * LengthSum(lit, n) + Kraft(lit[..144 + 4 * n], 15) >= 6144 * n
    decreases n
  {
    hide Kraft, Pow2;
    if n > 0 {
      var s := Sparse(n - 1);
      LengthsBelow(lit, n - 1);
      KraftNext(lit, s);
      KraftMono(lit, s + 1, s + 4);
      Tangent(lit[s]);
    }
  }

  // Any code for these bytes and the end of the block takes at least 106 bits.
  lemma SparseLengths(lit: seq<nat>)
    requires |lit| >= 257 && ValidLengths(lit) && Coded(lit, END_BLOCK)
    requires forall i :: 0 <= i < COUNT ==> Coded(lit, Sparse(i))
    ensures LengthSum(lit, COUNT) + lit[END_BLOCK] >= 106
  {
    hide Kraft, Pow2, LengthSum;
    LengthsBelow(lit, COUNT);
    KraftMono(lit, 232, 256);
    KraftNext(lit, 256);
    KraftMono(lit, 257, |lit|);
    Tangent(lit[256]);
    assert lit[..|lit|] == lit;
    assert Pow2(15) == 0x8000 by { Pow2Values(); }
  }

  lemma SparseCoded(lit: seq<nat>, dist: seq<nat>)
    requires TokensCoded(lit, dist, SparseTokens())
    ensures forall i :: 0 <= i < COUNT ==> Coded(lit, Sparse(i))
  {
    hide SparseTokens, Sparse;
    forall i | 0 <= i < COUNT
      ensures Coded(lit, Sparse(i))
    {
      assert TokenCoded(lit, dist, SparseTokens()[i]);
    }
  }

  lemma SparseUse(s: nat)
    requires UsesLit(SparseTokens(), s)
    ensures s % 4 == 0
  {
    hide SparseTokens;
    var ts := SparseTokens();
    var i :| 0 <= i < |ts| && ValidToken(ts[i]) && LitSym(ts[i]) == s;
    assert ts[i] == Literal(Sparse(i));
  }

  lemma SparseVaried(lit: seq<nat>)
    requires |lit| >= 257 && OnlyUsed(lit, SparseTokens()) && forall i :: 0 <= i < COUNT ==> Coded(lit, Sparse(i))
    ensures Varied(lit, 144, 232)
  {
    hide UsesLit, SparseTokens;
    forall i | 144 <= i && i + 3 < 232
      ensures !(lit[i] == lit[i + 1] == lit[i + 2] == lit[i + 3])
    {
      var j := (i - 144 + 3) / 4;
      assert Sparse(j) in [i, i + 1, i + 2, i + 3] && Coded(lit, Sparse(j));
      var k := if i == Sparse(j) then i + 1 else i;
      if lit[k] > 0 {
        SparseUse(k);
      }
    }
  }

  // The dynamic form of that block is even larger than the static one.
  lemma SparseDynamic(eof: bool, c: BlockCodes)
    requires c.Serves(SparseTokens())
    ensures |c.Dynamic(eof, SparseTokens())| >= 223
  {
    hide TokensBits, TokensCoded, RL.RleOf, SparseTokens, Kraft, Pow2, RL.SymsBits, OnlyUsed, LengthSum, CodeBits, ToBits,
         Covered,
         Varied, RL.Sendable;
    var ts, lit := SparseTokens(), c.lit;
    SparseCoded(lit, c.dist);
    SparseLengths(lit);
    SparseVaried(lit);
    SparseSize(lit, c.dist, COUNT);
    assert ts[..COUNT] == ts;
    RL.RleRoundTrip(lit, []);
    assert [] + lit == lit;
    SymsCost(c.cl, RL.RleOf(lit), [], lit, 144, 232);
    AllCovered(|lit|);
  }

  lemma AllCovered(n: nat)
    requires n >= 257
    ensures Covered(0, 144, 232) == 0 && Covered(n, 144, 232) == 88
  {
  }

  lemma {:induction false} FixedSum(n: nat)
    requires n <= COUNT
    ensures LengthSum(FixedLit(), n) == 9 * n
    decreases n
  {
    hide FixedLit;
    if n > 0 {
      FixedSum(n - 1);
    }
  }

  lemma SparseStatic(eof: bool)
    requires TokensCoded(FixedLit(), FixedDist(), SparseTokens())
    ensures |StaticBlock(eof, SparseTokens())| == 208
  {
    hide TokensBits, TokensCoded, SparseTokens, FixedLit, FixedDist, LengthSum, CodeBits;
    SparseSize(FixedLit(), FixedDist(), COUNT);
    FixedSum(COUNT);
    assert SparseTokens()[..COUNT] == SparseTokens();
  }

  // flush_block does not always pick the smallest form: these 22 bytes are stored,
  // in at least 211 bits, although a static block takes 208.
  lemma NotTheSmallest(x: seq<bool>, eof: bool, p: nat, c: BlockCodes)
    requires c.Serves(SparseTokens()) && Chosen(x, eof, p, SparseTokens(), Some(SparseBytes()), c)
    ensures x == StoredBlock(eof, p, SparseBytes()) && |x| >= 211 > |StaticBlock(eof, SparseTokens())|
  {
    hide StaticBlock, BlockCodes.Dynamic, StoredBlock, SparseTokens, BlockCodes.Serves, InBytes, SparseBytes;
    ServesFixed(c, SparseTokens());
    SparseDynamic(eof, c);
    SparseStatic(eof);
    StoredSize(eof, p, SparseBytes());
    RoundedUp(208, 26);
    RoundedUp(|c.Dynamic(eof, SparseTokens())|, 26);
  }

  lemma ServesFixed(c: BlockCodes, ts: seq<Token>)
    requires c.Serves(ts)
    ensures TokensCoded(FixedLit(), FixedDist(), ts)
  {
  }
}
