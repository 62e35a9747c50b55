/** The bits of a stored, static or dynamic block, and what the decompressor of
    RFC 1951 makes of them. */
module BlockFormat {
  import opened Arith
  import opened Bits
  import opened Rfc1951
  import opened Canonical
  import opened BitWriter
  import RunLength
  import opened Tables
  import opened Tokens

  // ---------- what it means for bits to decode ----------

  // Wherever `x` stands at position `p`, a decompressor that has produced `out`
  // goes on behind `x` with `out'`, or stops with it after the final block.
  ghost predicate Decodes(x: seq<bool>, p: nat, out: seq<Byte>, out': seq<Byte>, final: bool)
  {
    forall s :: At(s, p, x) ==> InflateFrom(s, p, out) == if final then Some(out') else InflateFrom(s, p + |x|, out')
  }

  // The blocks in `sent`, which start at `start`, have produced `out`.
  ghost predicate Produced(sent: seq<bool>, start: nat, out: seq<Byte>)
  {
    forall s :: At(s, 0, sent) ==> InflateFrom(s, start, []) == InflateFrom(s, |sent|, out)
  }

  // The stream in `sent` is complete.
  ghost predicate Finished(sent: seq<bool>, start: nat, out: seq<Byte>)
  {
    forall s :: At(s, 0, sent) ==> InflateFrom(s, start, []) == Some(out)
  }

  lemma NothingYet(sent: seq<bool>)
    ensures Produced(sent, |sent|, [])
  {
  }

  lemma AddBlock(sent: seq<bool>, start: nat, x: seq<bool>, out: seq<Byte>, out': seq<Byte>, final: bool)
    requires Produced(sent, start, out) && Decodes(x, |sent|, out, out', final)
    ensures if final then Finished(sent + x, start, out') else Produced(sent + x, start, out')
  {
    hide InflateFrom;
    forall s | At(s, 0, sent + x)
      ensures InflateFrom(s, start, []) == if final then Some(out') else InflateFrom(s, |sent + x|, out')
    {
      AtConcat(s, 0, sent, x);
    }
  }

  // Bits behind the final block do not matter.
  lemma FinishedMore(sent: seq<bool>, start: nat, out: seq<Byte>, more: seq<bool>)
    requires Finished(sent, start, out)
    ensures Finished(sent + more, start, out)
  {
    hide InflateFrom;
    forall s | At(s, 0, sent + more)
      ensures InflateFrom(s, start, []) == Some(out)
    {
      AtConcat(s, 0, sent, more);
    }
  }

  // ---------- the block header ----------

  ghost function HeaderBits(btype: nat, final: bool): (r: seq<bool>)
    ensures |r| == 3
  {
    ToBits(2 * btype + if final then 1 else 0, 3)
  }

  lemma ReadHeader(s: seq<bool>, p: nat, btype: nat, final: bool)
    requires btype < 4 && At(s, p, HeaderBits(btype, final))
    ensures ReadBits(s, p, 1) == Some(if final then 1 else 0) && ReadBits(s, p + 1, 2) == Some(btype)
  {
    hide ToBits, ReadBits;
    var f := if final then 1 else 0;
    Pow2Values();
    ToBitsPlace(f, 1, btype, 2);
    AtConcat(s, p, ToBits(f, 1), ToBits(btype, 2));
    ReadFinds(s, p, f, 1);
    ReadFinds(s, p + 1, btype, 2);
  }

  // The body of a block decodes from wherever it stands.
  ghost predicate BodyDecodes(body: seq<bool>, p: nat, btype: nat, out: seq<Byte>, out': seq<Byte>)
  {
    forall s :: At(s, p, body) ==> InflateBlock(s, p, btype, out) == Some((out', p + |body|))
  }

  lemma BlockDecodes(body: seq<bool>, p: nat, btype: nat, final: bool, out: seq<Byte>, out': seq<Byte>)
    requires btype < 4 && BodyDecodes(body, p + 3, btype, out, out')
    ensures Decodes(HeaderBits(btype, final) + body, p, out, out', final)
  {
    hide ToBits, ReadBits, InflateBlock, HeaderBits;
    var x := HeaderBits(btype, final) + body;
    forall s | At(s, p, x)
      ensures InflateFrom(s, p, out) == if final then Some(out') else InflateFrom(s, p + |x|, out')
    {
      AtConcat(s, p, HeaderBits(btype, final), body);
      ReadHeader(s, p, btype, final);
    }
  }

  // ---------- stored blocks ----------

  ghost function StoredBits(p: nat, bytes: seq<Byte>): (r: seq<bool>)
    requires |bytes| < 0x1_0000
    ensures |r| == Padding(p) + 32 + 8 * |bytes|
  {
    Zeros(Padding(p)) + (ToBits(|bytes|, 16) + ToBits(0xffff - |bytes|, 16)) + BytesBits(bytes)
  }

  lemma {:induction false} ReadBytesFinds(s: seq<bool>, p: nat, bytes: seq<Byte>, out: seq<Byte>, n: nat)
    requires At(s, p, BytesBits(bytes)) && n <= |bytes|
    ensures ReadBytes(s, p + 8 * n, |bytes| - n, out) == Some((out + bytes[n..], p + 8 * |bytes|))
    decreases |bytes| - n
  {
    hide ToBits, ReadBits, BytesBits;
    if n < |bytes| {
      ByteAt(s, p, bytes, n);
      ReadBytesFinds(s, p, bytes, out + [bytes[n]], n + 1);
      assert out + [bytes[n]] + bytes[n + 1..] == out + bytes[n..];
    } else {
      assert out + bytes[n..] == out;
    }
  }

  lemma AtThree(s: seq<bool>, p: nat, x: seq<bool>, y: seq<bool>, z: seq<bool>)
    requires At(s, p, x + y + z)
    ensures At(s, p, x) && At(s, p + |x|, y) && At(s, p + |x| + |y|, z)
  {
    hide At;
    AtConcat(s, p, x + y, z);
    AtConcat(s, p, x, y);
  }

  lemma ByteAt(s: seq<bool>, p: nat, bytes: seq<Byte>, n: nat)
    requires At(s, p, BytesBits(bytes)) && n < |bytes|
    ensures ReadBits(s, p + 8 * n, 8) == Some(bytes[n])
  {
    hide ToBits, ReadBits, BytesBits, At, Pow2;
    ByteSplit(bytes, n);
    AtThree(s, p, BytesBits(bytes[..n]), ToBits(bytes[n], 8), BytesBits(bytes[n + 1..]));
    assert Pow2(8) == 256 by { Pow2Values(); }
    ReadFinds(s, p + 8 * n, bytes[n], 8);
  }

  lemma ByteSplit(bytes: seq<Byte>, n: nat)
    requires n < |bytes|
    ensures BytesBits(bytes) == BytesBits(bytes[..n]) + ToBits(bytes[n], 8) + BytesBits(bytes[n + 1..])
  {
    hide ToBits, BytesBits, Pow2;
    var ax, b := bytes[..n + 1], bytes[n + 1..];
    assert ax + b == bytes;
    BytesBitsConcat(ax, b);
    assert ax[..n] == bytes[..n] && ax[n] == bytes[n];
    assert BytesBits(ax) == BytesBits(ax[..n]) + ToBits(ax[n], 8) by { LastByte(ax); }
  }

  lemma LastByte(bytes: seq<Byte>)
    requires bytes != []
    ensures BytesBits(bytes) == BytesBits(bytes[..|bytes| - 1]) + ToBits(bytes[|bytes| - 1], 8)
  {
  }

  lemma AlignIsPadding(p: nat)
    ensures (p + 7) / 8 * 8 == p + Padding(p)
  {
  }

  lemma StoredDecodes(p: nat, bytes: seq<Byte>, out: seq<Byte>)
    requires |bytes| < 0x1_0000
    ensures BodyDecodes(StoredBits(p, bytes), p, 0, out, out + bytes)
  {
    hide ToBits, ReadBits, BytesBits, ReadBytes, Padding, At;
    forall s | At(s, p, StoredBits(p, bytes))
      ensures InflateBlock(s, p, 0, out) == Some((out + bytes, p + |StoredBits(p, bytes)|))
    {
      StoredAt(s, p, Padding(p), |bytes|, BytesBits(bytes));
      AlignIsPadding(p);
      ReadBytesFinds(s, p + Padding(p) + 32, bytes, out, 0);
      assert bytes[0..] == bytes;
    }
  }

  lemma StoredAt(s: seq<bool>, p: nat, pad: nat, n: nat, data: seq<bool>)
    requires n < 0x1_0000 && At(s, p, Zeros(pad) + (ToBits(n, 16) + ToBits(0xffff - n, 16)) + data)
    ensures ReadBits(s, p + pad, 16) == Some(n) && ReadBits(s, p + pad + 16, 16) == Some(0xffff - n)
    ensures At(s, p + pad + 32, data)
  {
    hide ToBits, ReadBits, At, Zeros, Pow2;
    var words := ToBits(n, 16) + ToBits(0xffff - n, 16);
    AtThree(s, p, Zeros(pad), words, data);
    WordsAt(s, p + pad, n);
  }

  lemma WordsAt(s: seq<bool>, q: nat, n: nat)
    requires n < 0x1_0000 && At(s, q, ToBits(n, 16) + ToBits(0xffff - n, 16))
    ensures ReadBits(s, q, 16) == Some(n) && ReadBits(s, q + 16, 16) == Some(0xffff - n)
  {
    hide ToBits, ReadBits, At, Pow2;
    AtConcat(s, q, ToBits(n, 16), ToBits(0xffff - n, 16));
    assert Pow2(16) == 0x1_0000 by { Pow2Values(); }
    ReadFinds(s, q, n, 16);
    ReadFinds(s, q + 16, 0xffff - n, 16);
  }

  // ---------- static blocks ----------

  lemma StaticDecodes(p: nat, ts: seq<Token>, out: seq<Byte>)
    requires TokensCoded(FixedLit(), FixedDist(), ts) && Resolvable(ts, out)
    ensures BodyDecodes(DataBits(FixedLit(), FixedDist(), ts), p, 1, out, Expand(ts, out))
  {
    hide DataBits, InflateData, FixedLit, FixedDist, TokensCoded, ValidLengths, Expand, At;
    var lit, dist := FixedLit(), FixedDist();
    FixedLitValid();
    FixedDistValid();
    forall s | At(s, p, DataBits(lit, dist, ts))
      ensures InflateBlock(s, p, 1, out) == Some((Expand(ts, out), p + |DataBits(lit, dist, ts)|))
    {
      InflateDataFinds(lit, dist, s, p, out, ts);
    }
  }

  lemma {:induction false} FixedCoded(ts: seq<Token>)
    requires ValidTokens(ts)
    ensures TokensCoded(FixedLit(), FixedDist(), ts)
  {
    hide LengthCode, DistCode;
  }

  // ---------- dynamic blocks ----------

  // Where each symbol of the code length alphabet stands in the sending order.
  const CL_RANK: seq<nat> := [3, 17, 15, 13, 11, 9, 7, 5, 4, 6, 8, 10, 12, 14, 16, 18, 0, 1, 2]

  function ClOrder(i: nat): (r: nat)
    requires i < 19
    ensures r < 19
  {
    CL_ORDER[i]
  }

  function ClRank(x: nat): (r: nat)
    requires x < 19
    ensures r < 19
  {
    CL_RANK[x]
  }

  lemma OrderRank(i: nat)
    requires i < 19
    ensures ClRank(ClOrder(i)) == i
  {
  }

  lemma RankOrder(x: nat)
    requires x < 19
    ensures ClOrder(ClRank(x)) == x
  {
  }

  // The lengths that are among the first `i` sent.
  ghost function ClSent(cl: seq<nat>, i: nat): (r: seq<nat>)
    requires |cl| == 19
    ensures |r| == 19 && forall x :: 0 <= x < 19 ==> r[x] == if ClRank(x) < i then cl[x] else 0
  {
    seq(19, x requires 0 <= x < 19 => if ClRank(x) < i then cl[x] else 0)
  }

  lemma ClSentStep(cl: seq<nat>, i: nat)
    requires |cl| == 19 && i < 19
    ensures ClSent(cl, i + 1) == ClSent(cl, i)[ClOrder(i) := cl[ClOrder(i)]]
  {
    hide ClRank, ClOrder;
    var a, b := ClSent(cl, i + 1), ClSent(cl, i)[ClOrder(i) := cl[ClOrder(i)]];
    forall x | 0 <= x < 19
      ensures a[x] == b[x]
    {
      OrderRank(i);
      RankOrder(x);
    }
  }

  ghost function ClBits(cl: seq<nat>, i: nat, k: nat): (r: seq<bool>)
    requires |cl| == 19 && i <= k <= 19
    ensures |r| == 3 * (k - i)
    decreases k - i
  {
    if i == k then [] else ToBits(cl[ClOrder(i)], 3) + ClBits(cl, i + 1, k)
  }

  lemma {:induction false} ClBitsSnoc(cl: seq<nat>, i: nat, k: nat)
    requires |cl| == 19 && i <= k < 19
    ensures ClBits(cl, i, k + 1) == ClBits(cl, i, k) + ToBits(cl[ClOrder(k)], 3)
    decreases k - i
  {
    hide ToBits, ClOrder;
    if i == k {
      assert ClBits(cl, k + 1, k + 1) == [] && ClBits(cl, k, k) == [];
    } else {
      ClBitsSnoc(cl, i + 1, k);
      ConcatAssoc(ToBits(cl[ClOrder(i)], 3), ClBits(cl, i + 1, k), ToBits(cl[ClOrder(k)], 3));
    }
  }

  lemma {:induction false} ReadClFinds(cl: seq<nat>, s: seq<bool>, p: nat, i: nat, k: nat)
    requires |cl| == 19 && i <= k <= 19 && (forall x :: 0 <= x < 19 ==> cl[x] < 8)
    requires At(s, p, ClBits(cl, i, k))
    ensures ReadClLengths(s, p, i, k - i, ClSent(cl, i)) == Some(ClSent(cl, k))
    decreases k - i
  {
    hide ToBits, ReadBits, ClSent, ClRank, Pow2, At;
    if i < k {
      var v := cl[ClOrder(i)];
      AtConcat(s, p, ToBits(v, 3), ClBits(cl, i + 1, k));
      assert Pow2(3) == 8 by { Pow2Values(); }
      ReadFinds(s, p, v, 3);
      ClSentStep(cl, i);
      ReadClFinds(cl, s, p + 3, i + 1, k);
    }
  }

  // Only the first `k` lengths in sending order are non-zero.
  ghost predicate ClEnds(cl: seq<nat>, k: nat)
  {
    |cl| == 19 && forall i :: k <= i < 19 ==> cl[ClOrder(i)] == 0
  }

  lemma ClSentAll(cl: seq<nat>, k: nat)
    requires ClEnds(cl, k)
    ensures ClSent(cl, k) == cl
    ensures ClSent(cl, 0) == Repeat(0, 19)
  {
    hide ClRank, ClOrder;
    forall x | 0 <= x < 19
      ensures ClSent(cl, k)[x] == cl[x]
    {
      RankOrder(x);
    }
  }

  // Everything a decoder needs of the three codes of a dynamic block.
  ghost predicate DynamicCodes(lit: seq<nat>, dist: seq<nat>, cl: seq<nat>, k: nat)
  {
    && 257 <= |lit| <= 286 && 1 <= |dist| <= 30 && 4 <= k <= 19
    && ValidLengths(lit) && ValidLengths(dist) && ValidLengths(cl)
    && ClEnds(cl, k) && (forall x :: 0 <= x < 19 ==> cl[x] < 8)
    && RunLength.Sendable(cl, RunLength.RleOf(lit)) && RunLength.Sendable(cl, RunLength.RleOf(dist))
  }

  ghost function CountBits(nlit: nat, ndist: nat, k: nat): (r: seq<bool>)
    requires 257 <= nlit && 1 <= ndist && 4 <= k
    ensures |r| == 14
  {
    ToBits(nlit - 257, 5) + ToBits(ndist - 1, 5) + ToBits(k - 4, 4)
  }

  ghost function LengthsBits(lit: seq<nat>, dist: seq<nat>, cl: seq<nat>): seq<bool>
    requires RunLength.Sendable(cl, RunLength.RleOf(lit)) && RunLength.Sendable(cl, RunLength.RleOf(dist))
  {
    RunLength.SymsBits(cl, RunLength.RleOf(lit)) + RunLength.SymsBits(cl, RunLength.RleOf(dist))
  }

  ghost function TreesBits(lit: seq<nat>, dist: seq<nat>, cl: seq<nat>, k: nat): seq<bool>
    requires DynamicCodes(lit, dist, cl, k)
  {
    CountBits(|lit|, |dist|, k) + ClBits(cl, 0, k) + LengthsBits(lit, dist, cl)
  }

  lemma ReadCounts(s: seq<bool>, p: nat, nlit: nat, ndist: nat, k: nat)
    requires 257 <= nlit <= 286 && 1 <= ndist <= 30 && 4 <= k <= 19 && At(s, p, CountBits(nlit, ndist, k))
    ensures ReadBits(s, p, 5) == Some(nlit - 257) && ReadBits(s, p + 5, 5) == Some(ndist - 1)
    ensures ReadBits(s, p + 10, 4) == Some(k - 4)
  {
    hide ToBits, ReadBits;
    AtConcat(s, p, ToBits(nlit - 257, 5) + ToBits(ndist - 1, 5), ToBits(k - 4, 4));
    AtConcat(s, p, ToBits(nlit - 257, 5), ToBits(ndist - 1, 5));
    Pow2Values();
    ReadFinds(s, p, nlit - 257, 5);
    ReadFinds(s, p + 5, ndist - 1, 5);
    ReadFinds(s, p + 10, k - 4, 4);
  }

  lemma ReadCodesFinds(lit: seq<nat>, dist: seq<nat>, cl: seq<nat>, k: nat, s: seq<bool>, p: nat)
    requires DynamicCodes(lit, dist, cl, k) && At(s, p, LengthsBits(lit, dist, cl))
    ensures p <= |s|
    ensures ReadCodes(cl, s, p, |lit|, |dist|) == Some((lit, dist, p + |LengthsBits(lit, dist, cl)|))
  {
    hide ReadLengths, RunLength.SymsBits, RunLength.Sendable, RunLength.Expand, Kraft, RunLength.RleOf;
    var a, b := RunLength.RleOf(lit), RunLength.RleOf(dist);
    RunLength.SymsBitsConcat(cl, a, b);
    RunLength.RleRoundTrip(lit, []);
    RunLength.RleRoundTrip(dist, lit);
    assert [] + lit == lit;
    RunLength.ExpandConcat(a, b, [], lit);
    RunLength.ReadLengthsFinds(cl, a + b, s, p, [], lit + dist);
    assert (lit + dist)[..|lit|] == lit && (lit + dist)[|lit|..] == dist;
  }

  lemma ReadTreesFinds(lit: seq<nat>, dist: seq<nat>, cl: seq<nat>, k: nat, s: seq<bool>, p: nat)
    requires DynamicCodes(lit, dist, cl, k) && At(s, p, TreesBits(lit, dist, cl, k))
    ensures ReadTrees(s, p) == Some((lit, dist, p + |TreesBits(lit, dist, cl, k)|))
  {
    hide ToBits, ReadBits, CountBits, LengthsBits, ReadCodes, ReadClLengths, At, ClBits, RunLength.Sendable, ValidLengths, ClSent,
         ClOrder, RunLength.RleOf;
    var counts, cls, lens := CountBits(|lit|, |dist|, k), ClBits(cl, 0, k), LengthsBits(lit, dist, cl);
    AtConcat(s, p, counts + cls, lens);
    AtConcat(s, p, counts, cls);
    ReadCounts(s, p, |lit|, |dist|, k);
    ClSentAll(cl, k);
    ReadClFinds(cl, s, p + 14, 0, k);
    ReadCodesFinds(lit, dist, cl, k, s, p + 14 + 3 * k);
  }

  ghost function DynamicBits(lit: seq<nat>, dist: seq<nat>, cl: seq<nat>, k: nat, ts: seq<Token>): seq<bool>
    requires DynamicCodes(lit, dist, cl, k) && TokensCoded(lit, dist, ts)
  {
    TreesBits(lit, dist, cl, k) + DataBits(lit, dist, ts)
  }

  lemma DynamicDecodes(p: nat, lit: seq<nat>, dist: seq<nat>, cl: seq<nat>, k: nat, ts: seq<Token>, out: seq<Byte>)
    requires DynamicCodes(lit, dist, cl, k) && TokensCoded(lit, dist, ts) && Coded(lit, END_BLOCK) && Resolvable(ts, out)
    ensures BodyDecodes(DynamicBits(lit, dist, cl, k, ts), p, 2, out, Expand(ts, out))
  {
    hide DataBits, InflateData, TreesBits, ReadTrees, TokensCoded, ValidLengths, Expand, At, Resolvable, ClEnds,
         RunLength.Sendable, RunLength.RleOf;
    var x := DynamicBits(lit, dist, cl, k, ts);
    forall s | At(s, p, x)
      ensures InflateBlock(s, p, 2, out) == Some((Expand(ts, out), p + |x|))
    {
      AtConcat(s, p, TreesBits(lit, dist, cl, k), DataBits(lit, dist, ts));
      ReadTreesFinds(lit, dist, cl, k, s, p);
      InflateDataFinds(lit, dist, s, p + |TreesBits(lit, dist, cl, k)|, out, ts);
    }
  }
}
