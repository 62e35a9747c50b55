/** The block for which it is too late: why it had better been stored. */
module LateBlock {
  import opened Arith
  import opened Bits
  import opened Rfc1951
  import opened Canonical
  import RL = RunLength
  import opened Tokens
  import opened BlockFormat
  import opened BlockTrees
  import opened Blocks
  import opened BlockChoice
  import opened Limits

  // Two counters, the second 128 times slower, in alternating bytes.
  function Pattern(i: nat): Byte
  {
    if i % 2 == 0 then i / 2 % 128 else 128 + i / 256 % 128
  }

  // ---------- how long the codes for the pattern are ----------

  // Total length of the codes for the bytes of the pattern from `a` on, below `b`.
  function PatternSum(lens: seq<nat>, a: nat, b: nat): nat
    requires a <= b && |lens| >= 256
    decreases b
  {
    if a == b then 0 else PatternSum(lens, a, b - 1) + lens[Pattern(b - 1)]
  }

  // Total length of the codes for the values from `a` on, below `b`.
  function ValueSum(lens: seq<nat>, a: nat, b: nat): nat
    requires a <= b <= |lens|
    decreases b
  {
    if a == b then 0 else ValueSum(lens, a, b - 1) + lens[b - 1]
  }

  lemma {:induction false} SumSplit(lens: seq<nat>, a: nat, b: nat, c: nat)
    requires a <= b <= c && |lens| >= 256
    ensures PatternSum(lens, a, c) == PatternSum(lens, a, b) + PatternSum(lens, b, c)
    decreases c
  {
    hide Pattern;
    if b < c {
      SumSplit(lens, a, b, c - 1);
    }
  }

  lemma PatternAt(k: nat, j: nat)
    requires k < 128 && j < 128
    ensures Pattern(0x8000 + 256 * k + 2 * j) == j && Pattern(0x8000 + 256 * k + 2 * j + 1) == 128 + k
  {
  }

  // One round of the fast counter.
  lemma {:induction false} RoundSum(lens: seq<nat>, k: nat, j: nat)
    requires |lens| >= 256 && k < 128 && j <= 128
    ensures var a := 0x8000 + 256 * k;
            PatternSum(lens, a, a + 2 * j) == ValueSum(lens, 0, j) + j * lens[128 + k]
    decreases j
  {
    hide Pattern;
    if j > 0 {
      RoundSum(lens, k, j - 1);
      PatternAt(k, j - 1);
    }
  }

  // The slow counter goes round once: every value occurs 128 times.
  lemma {:induction false} PeriodSum(lens: seq<nat>, k: nat)
    requires |lens| >= 256 && k <= 128
    ensures PatternSum(lens, 0x8000, 0x8000 + 256 * k) == k * ValueSum(lens, 0, 128) + 128 * ValueSum(lens, 128, 128 + k)
    decreases k
  {
    hide Pattern, PatternSum, ValueSum;
    ValueNext(lens, k);
    if k == 0 {
      NoSum(lens, 0x8000);
    } else {
      PeriodSum(lens, k - 1);
      RoundSum(lens, k - 1, 128);
      SumSplit(lens, 0x8000, 0x8000 + 256 * (k - 1), 0x8000 + 256 * k);
      OneMoreRound(k, ValueSum(lens, 0, 128), ValueSum(lens, 128, 128 + (k - 1)), lens[128 + (k - 1)]);
    }
  }

  lemma ValueNext(lens: seq<nat>, k: nat)
    requires |lens| >= 256 && k <= 128
    ensures ValueSum(lens, 128, 128 + k) == if k == 0 then 0 else ValueSum(lens, 128, 128 + (k - 1)) + lens[128 + (k - 1)]
  {
  }

  lemma OneMoreRound(k: nat, v: nat, w: nat, l: nat)
    requires k >= 1
    ensures (k - 1) * v + 128 * w + (v + 128 * l) == k * v + 128 * (w + l)
  {
  }

  lemma NoSum(lens: seq<nat>, a: nat)
    requires |lens| >= 256
    ensures PatternSum(lens, a, a) == 0
  {
  }

  lemma {:induction false} ValueSplit(lens: seq<nat>, a: nat, b: nat, c: nat)
    requires a <= b <= c <= |lens|
    ensures ValueSum(lens, a, c) == ValueSum(lens, a, b) + ValueSum(lens, b, c)
    decreases c
  {
    if b < c {
      ValueSplit(lens, a, b, c - 1);
    }
  }

  const FIRST: nat := 0x8000 - 1
  const LAST: nat := 0x1_0000 - 2

  lemma PatternEnds()
    ensures Pattern(FIRST) == 255 && Pattern(LAST) == 127 && Pattern(LAST + 1) == 255
  {
  }

  // The block is one period of the pattern without its last byte.
  lemma LateSum(lens: seq<nat>)
    requires |lens| >= 256
    ensures PatternSum(lens, FIRST, LAST) + lens[127] == 128 * ValueSum(lens, 0, 256)
  {
    hide Pattern, PatternSum, ValueSum;
    PeriodSum(lens, 128);
    ValueSplit(lens, 0, 128, 256);
    PatternEnds();
    SumSplit(lens, FIRST, FIRST + 1, LAST + 2);
    SumSplit(lens, FIRST, LAST, LAST + 2);
    OneByte(lens, FIRST);
    OneByte(lens, LAST);
    OneByte(lens, LAST + 1);
    SumSplit(lens, LAST, LAST + 1, LAST + 2);
  }

  lemma OneByte(lens: seq<nat>, a: nat)
    requires |lens| >= 256
    ensures PatternSum(lens, a, a + 1) == lens[Pattern(a)]
  {
    hide Pattern;
    NoSum(lens, a);
  }

  // ---------- no code makes the block shorter ----------

  lemma FlatTangent(l: nat)
    requires 1 <= l <= 15
    ensures 64 * l + Pow2(15 - l) >= 640
  {
    Pow2Values();
  }

  lemma {:induction false} FlatSum(lens: seq<nat>, n: nat)
    requires n <= 256 <= |lens| && forall v :: 0 <= v < 256 ==> 1 <= lens[v] <= 15
    ensures 64 * ValueSum(lens, 0, n) + Kraft(lens[..n], 15) >= 640 * n
    decreases n
  {
    hide Kraft, Pow2;
    if n > 0 {
      FlatSum(lens, n - 1);
      KraftNext(lens, n - 1);
      FlatTangent(lens[n - 1]);
    }
  }

  // A code for all 256 values has eight bits on average at least.
  lemma EightBits(lens: seq<nat>)
    requires |lens| >= 256 && ValidLengths(lens) && forall v :: 0 <= v < 256 ==> lens[v] >= 1
    ensures ValueSum(lens, 0, 256) >= 2048 && lens[127] <= 15
  {
    hide Kraft, Pow2, ValueSum;
    FlatSum(lens, 256);
    KraftMono(lens, 256, |lens|);
    assert lens[..|lens|] == lens;
    assert Pow2(15) == 0x8000 by { Pow2Values(); }
  }

  // ---------- the block ----------

  function LateTokens(): (r: seq<Token>)
    ensures |r| == LAST - FIRST && forall i :: 0 <= i < |r| ==> r[i] == Literal(Pattern(FIRST + i))
  {
    seq(LAST - FIRST, i requires 0 <= i => Literal(Pattern(FIRST + i)))
  }

  lemma {:induction false} LateSize(lit: seq<nat>, dist: seq<nat>, n: nat)
    requires |lit| >= 257 && TokensCoded(lit, dist, LateTokens()) && n <= LAST - FIRST
    ensures TokensCoded(lit, dist, LateTokens()[..n])
    ensures |TokensBits(lit, dist, LateTokens()[..n])| == PatternSum(lit, FIRST, FIRST + n)
    decreases n
  {
    hide TokensBits, CodeBits, LateTokens, Pattern;
    if n == 0 {
      NoTokenBits(lit, dist, LateTokens());
    } else {
      LateSize(lit, dist, n - 1);
      TokensBitsSnoc(lit, dist, LateTokens(), n - 1);
      assert LateTokens()[n - 1] == Literal(Pattern(FIRST + (n - 1)));
    }
  }

  lemma NoTokenBits(lit: seq<nat>, dist: seq<nat>, ts: seq<Token>)
    ensures TokensBits(lit, dist, []) == [] && ts[..0] == []
  {
  }

  lemma LateData(lit: seq<nat>, dist: seq<nat>)
    requires |lit| >= 257 && TokensCoded(lit, dist, LateTokens())
    ensures |TokensBits(lit, dist, LateTokens())| + lit[127] == 128 * ValueSum(lit, 0, 256)
  {
    hide TokensBits, LateTokens, PatternSum, ValueSum, TokensCoded;
    LateSize(lit, dist, LAST - FIRST);
    LateSum(lit);
    assert LateTokens()[..LAST - FIRST] == LateTokens();
  }

  // Every value occurs, so every value has a code.
  lemma AllValues(lit: seq<nat>, dist: seq<nat>, v: nat)
    requires TokensCoded(lit, dist, LateTokens()) && v < 256
    ensures Coded(lit, v)
  {
    hide LateTokens, Pattern, Coded;
    var i := if v < 128 then 0x8000 + 2 * v else 0x8000 + 256 * (v - 128) + 1;
    PatternAt(if v < 128 then 0 else v - 128, if v < 128 then v else 0);
    assert LateTokens()[i - FIRST] == Literal(Pattern(i));
    assert TokenCoded(lit, dist, LateTokens()[i - FIRST]);
  }

  lemma SomeSyms(cl: seq<nat>, syms: seq<RL.ClSym>)
    requires RL.Sendable(cl, syms) && |syms| >= 2
    ensures |RL.SymsBits(cl, syms)| >= 2
  {
    hide CodeBits, ToBits;
    assert syms[1..] != [] && syms[1..][0] == syms[1];
    assert RL.SymsBits(cl, syms[1..]) == RL.SymBits(cl, syms[1]) + RL.SymsBits(cl, syms[1..][1..]);
    assert cl[syms[0].sym] > 0 && cl[syms[1].sym] > 0;
  }

  // One symbol stands for at most 138 lengths.
  lemma TwoSyms(cl: seq<nat>, lens: seq<nat>)
    requires |lens| >= 257 && |cl| == 19 && RL.Sendable(cl, RL.RleOf(lens)) && forall i :: 0 <= i < |lens| ==> lens[i] < 16
    ensures |RL.RleOf(lens)| >= 2
  {
    hide RL.RleOf;
    var syms := RL.RleOf(lens);
    RL.RleRoundTrip(lens, []);
    assert [] + lens == lens;
    if |syms| == 1 {
      OneSym(cl, syms, lens);
    }
  }

  lemma OneSym(cl: seq<nat>, syms: seq<RL.ClSym>, lens: seq<nat>)
    requires |syms| == 1 && |cl| == 19 && RL.Sendable(cl, syms) && RL.Expand(syms, []) == Some(lens)
    ensures |lens| <= 138
  {
    Pow2Values();
    assert syms[1..] == [];
  }

  lemma LateDynamic(eof: bool, c: BlockCodes)
    requires c.Serves(LateTokens())
    ensures |c.Dynamic(eof, LateTokens())| >= 8 * |LateTokens()| + 25
  {
    hide TokensBits, TokensCoded, RL.RleOf, LateTokens, Kraft, Pow2, RL.SymsBits, OnlyUsed, ValueSum, CodeBits, ToBits,
         RL.Sendable;
    var lit := c.lit;
    forall v | 0 <= v < 256
      ensures lit[v] >= 1
    {
      AllValues(lit, c.dist, v);
    }
    EightBits(lit);
    LateData(lit, c.dist);
    TwoSyms(c.cl, lit);
    SomeSyms(c.cl, RL.RleOf(lit));
  }

  lemma {:induction false} FixedValues(n: nat)
    requires n <= 256
    ensures ValueSum(FixedLit(), 0, n) == 8 * n + if n > 144 then n - 144 else 0
    decreases n
  {
    hide FixedLit;
    if n > 0 {
      FixedValues(n - 1);
    }
  }

  lemma LateStatic(eof: bool)
    requires TokensCoded(FixedLit(), FixedDist(), LateTokens())
    ensures |StaticBlock(eof, LateTokens())| >= 8 * |LateTokens()| + 25
  {
    hide TokensBits, TokensCoded, LateTokens, ValueSum, FixedLit, FixedDist, CodeBits;
    FixedValues(256);
    LateData(FixedLit(), FixedDist());
  }

  // Whatever codes are built for the block, storing it pays off.
  lemma LatePays(eof: bool, c: BlockCodes)
    requires c.Serves(LateTokens())
    ensures TokensCoded(FixedLit(), FixedDist(), LateTokens())
    ensures StoringPays(|LateTokens()|, |StaticBlock(eof, LateTokens())|)
    ensures StoringPays(|LateTokens()|, |c.Dynamic(eof, LateTokens())|)
  {
    hide StaticBlock, BlockCodes.Dynamic, LateTokens, BlockCodes.Serves, InBytes;
    ServesFixed(c, LateTokens());
    LateStatic(eof);
    LateDynamic(eof, c);
    RoundedUp(|StaticBlock(eof, LateTokens())|, |LateTokens()| + 4);
    RoundedUp(|c.Dynamic(eof, LateTokens())|, |LateTokens()| + 4);
  }
}
