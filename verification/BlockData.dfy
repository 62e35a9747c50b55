/** compress_block and send_all_trees: sending the tokens and the trees. */
module BlockData {
  import opened Arith
  import opened Bits
  import opened BitWriter
  import opened Rfc1951
  import opened Canonical
  import opened Codes
  import RL = RunLength
  import opened Tables
  import opened Tokens
  import opened Tally
  import opened BlockFormat
  import opened BlockTrees

  // Wherever a symbol has a code in `lens`, the tree holds it.
  ghost predicate TreeSends(t: seq<CtData>, lens: seq<nat>)
  {
    forall n :: 0 <= n < |t| && n < |lens| && lens[n] > 0 ==> t[n].dl == lens[n] <= 15 && CodeSet(t[n], lens, n)
  }

  lemma SetSends(t: seq<CtData>, lens: seq<nat>)
    requires CodesSet(t, lens) && ValidLengths(lens)
    ensures TreeSends(t, lens)
  {
    hide CodeBits, ToBits, Pow2, Kraft;
  }

  lemma SetInSends(t: seq<CtData>, lens: seq<nat>)
    requires CodesSetIn(t, lens) && ValidLengths(lens)
    ensures TreeSends(t, lens)
  {
    hide CodeBits, ToBits, Pow2, Kraft;
  }

  // ---------- one token ----------

  lemma LengthStartIs(c: nat)
    requires c < 29 && LengthExtra(c) != 0
    ensures c < 28 && LengthStart(c) + 3 == LengthBase(c)
  {
  }

  lemma DistStartIs(c: nat)
    requires c < 30
    ensures DistStart(c) + 1 == DistBase(c)
  {
  }

  // The extra bits of a match, from the tables.
  lemma ExtraFields(t: Token)
    requires ValidToken(t) && t.Match?
    ensures LengthField(t) < Pow2(LengthBits(t)) && DistField(t) < Pow2(DistBits(t))
    ensures LengthBits(t) != 0 ==>
              LengthCode(t.length - 3) < 28 && LengthField(t) == t.length - 3 - LengthStart(LengthCode(t.length - 3))
    ensures DistField(t) == t.dist - 1 - DistStart(DistSym(t))
    ensures LengthBits(t) <= 16 && DistBits(t) <= 16
  {
    hide LengthCode, DistCode, LengthBase, LengthExtra, DistBase, DistExtra, LengthStart, DistStart, Pow2;
    LengthCodeHolds(t.length - 3);
    DistCodeHolds(t.dist - 1);
    FewExtra(LengthCode(t.length - 3));
    FewExtra(DistSym(t));
    DistStartIs(DistSym(t));
    if LengthBits(t) != 0 {
      LengthStartIs(LengthCode(t.length - 3));
    }
  }

  // A code followed by its extra bits; `base` is where the code's range starts.
  method SendWithExtra(w: Writer, tree: array<CtData>, sym: nat, value: nat, base: nat, extra: nat,
                       ghost lens: seq<nat>, ghost field: nat)
    requires w.Valid() && sym < tree.Length && Coded(lens, sym) && TreeSends(tree[..], lens)
    requires extra <= 16 && field < Pow2(extra) && (extra != 0 ==> base <= value && value - base == field)
    modifies w, w.outbuf
    ensures w.Valid()
    ensures w.Sent() == old(w.Sent()) + (CodeBits(lens, sym) + ToBits(field, extra))
  {
    hide ToBits, CodeBits, BytesBits, Pow2, CodeSet;
    ghost var s0 := w.Sent();
    assert tree[..][sym] == tree[sym];
    RL.SendCode(w, tree, sym, lens);
    if extra != 0 {
      w.SendBits(value - base, extra);
    } else {
      RL.ToBitsNone(field);
      assert w.Sent() == w.Sent() + [];
    }
    ConcatAssoc(s0, CodeBits(lens, sym), ToBits(field, extra));
  }

  // A length/distance pair.
  method SendMatch(w: Writer, tables: CodeTables, ltree: array<CtData>, dtree: array<CtData>, lc: nat, dist: nat,
                   ghost lit: seq<nat>, ghost dst: seq<nat>, ghost t: Token)
    requires w.Valid() && tables.Valid() && ltree.Length >= 286 && dtree.Length >= 30
    requires TreeSends(ltree[..], lit) && TreeSends(dtree[..], dst)
    requires ValidToken(t) && t.Match? && TokenCoded(lit, dst, t) && lc == t.length - 3 && dist == t.dist - 1
    modifies w, w.outbuf
    ensures w.Valid()
    ensures w.Sent() == old(w.Sent()) + TokenBits(lit, dst, t)
  {
    hide ToBits, CodeBits, BytesBits, Pow2, TreeSends, LengthCode, DistCode, LengthExtra, DistExtra, LengthStart, DistStart,
         LengthField, DistField;
    ghost var s0 := w.Sent();
    ExtraFields(t);
    var code := tables.lengthCode[lc];
    var base := if LengthExtra(code) != 0 then tables.baseLength[code] else 0;
    SendWithExtra(w, ltree, code + 257, lc, base, LengthExtra(code), lit, LengthField(t));
    code := tables.DCode(dist);
    SendWithExtra(w, dtree, code, dist, tables.baseDist[code], DistExtra(code), dst, DistField(t));
    ConcatAssoc(s0, LengthPart(lit, t), DistPart(dst, t));
  }

  // ---------- the token buffer, read back ----------

  // The flags of token `i` and the ones behind it in the same group.
  ghost function FlagsFrom(ts: seq<Token>, i: nat): nat
    requires i <= |ts|
  {
    FromBits(FlagBits(ts[i..if i < GroupEnd(ts, i / 8) then GroupEnd(ts, i / 8) else i]))
  }

  lemma FlagStep(ts: seq<Token>, i: nat)
    requires i < |ts|
    ensures FlagsFrom(ts, i) % 2 == (if ts[i].Match? then 1 else 0)
    ensures (i + 1) % 8 != 0 ==> FlagsFrom(ts, i) / 2 == FlagsFrom(ts, i + 1)
    ensures i % 8 == 0 ==> FlagsFrom(ts, i) == GroupFlags(ts, i / 8)
  {
    var e := GroupEnd(ts, i / 8);
    var b := FlagBits(ts[i..e]);
    assert b[0] == ts[i].Match?;
    assert b[1..] == FlagBits(ts[i + 1..e]);
    assert FromBits(b) == (if b[0] then 1 else 0) + 2 * FromBits(b[1..]);
    if (i + 1) % 8 != 0 {
      assert (i + 1) / 8 == i / 8;
    }
    if i % 8 == 0 {
      assert i == 8 * (i / 8);
    }
  }

  // What the buffer says about token `i`.
  lemma BufferAt(lBuf: seq<Byte>, dBuf: seq<nat>, ts: seq<Token>, i: nat)
    requires LitsStored(lBuf, ts) && DistsStored(dBuf, ts) && i < |ts|
    ensures i < |lBuf| && ValidToken(ts[i]) && lBuf[i] == Lc(ts[i])
    ensures ts[i].Match? ==> MatchCount(ts[..i]) < |dBuf| && dBuf[MatchCount(ts[..i])] == ts[i].dist - 1
  {
  }

  ghost predicate FlagsReady(buf: TokenBuffer)
    reads buf, buf.flagBuf
  {
    && buf.lastFlags < buf.flagBuf.Length
    && forall k :: 0 <= k <= buf.lastFlags && 8 * k < |buf.tokens| ==> buf.flagBuf[k] == GroupFlags(buf.tokens, k)
  }

  // The position of the loop of compress_block before token `lx`.
  ghost predicate Reading(ts: seq<Token>, lx: nat, dx: nat, fx: nat, flag: nat)
  {
    && lx <= |ts|
    && dx == MatchCount(ts[..lx])
    && fx == (lx + 7) / 8
    && (lx % 8 != 0 ==> flag == FlagsFrom(ts, lx))
  }

  lemma ReadingStep(ts: seq<Token>, lx: nat, dx: nat, fx: nat, flag: nat, flag': nat)
    requires Reading(ts, lx, dx, fx, flag) && lx < |ts|
    requires flag' == if lx % 8 == 0 then GroupFlags(ts, lx / 8) else flag
    ensures flag' % 2 == if ts[lx].Match? then 1 else 0
    ensures Reading(ts, lx + 1, if ts[lx].Match? then dx + 1 else dx, if lx % 8 == 0 then fx + 1 else fx, flag' / 2)
  {
    hide FlagsFrom, GroupFlags, MatchCount;
    FlagStep(ts, lx);
    MatchCountNext(ts, lx);
  }

  method CompressBlock(w: Writer, buf: TokenBuffer, tables: CodeTables, ltree: array<CtData>, dtree: array<CtData>,
                       ghost lit: seq<nat>, ghost dst: seq<nat>)
    requires w.Valid() && buf.Valid() && tables.Valid() && ltree.Length >= 286 && dtree.Length >= 30
    requires w.outbuf != buf.lBuf && FlagsReady(buf)
    requires TreeSends(ltree[..], lit) && TreeSends(dtree[..], dst) && TokensCoded(lit, dst, buf.tokens)
    requires Coded(lit, END_BLOCK)
    modifies w, w.outbuf
    ensures w.Valid()
    ensures w.Sent() == old(w.Sent()) + DataBits(lit, dst, buf.tokens)
  {
    hide TreeSends, TokensCoded, TokensBits, TokenBits, TokenCoded, CodeBits, Pow2, MatchCount, GroupFlags, Reading, LitsStored,
         DistsStored, FlagsStored, OpenFlags, Coded;
    ghost var ts, s0 := buf.tokens, w.Sent();
    SendNothing(lit, dst, ts, s0);
    if buf.lastLit != 0 {
      SendTokens(w, buf, tables, ltree, dtree, lit, dst, s0);
    } else {
      assert ts[..0] == ts;
    }
    EndIsCoded(ltree[..], lit);
    RL.SendCode(w, ltree, END_BLOCK, lit);
    ConcatAssoc(s0, TokensBits(lit, dst, ts), CodeBits(lit, END_BLOCK));
  }

  lemma EndIsCoded(t: seq<CtData>, lit: seq<nat>)
    requires TreeSends(t, lit) && |t| >= 286 && Coded(lit, END_BLOCK)
    ensures END_BLOCK < |lit| && 0 < lit[END_BLOCK] <= 15 && t[END_BLOCK].dl == lit[END_BLOCK]
    ensures CodeSet(t[END_BLOCK], lit, END_BLOCK)
  {
    hide CodeSet;
  }

  lemma SendNothing(lit: seq<nat>, dst: seq<nat>, ts: seq<Token>, s0: seq<bool>)
    requires TokensCoded(lit, dst, ts)
    ensures TokensCoded(lit, dst, ts[..0]) && s0 == s0 + TokensBits(lit, dst, ts[..0])
    ensures Reading(ts, 0, 0, 0, 0)
  {
    hide TokenBits, TokenCoded;
  }

  method SendToken(w: Writer, tables: CodeTables, ltree: array<CtData>, dtree: array<CtData>, lc: Byte, isMatch: bool,
                   dBuf: array<nat>, dx: nat, ghost lit: seq<nat>, ghost dst: seq<nat>, ghost t: Token)
    returns (dx': nat)
    requires w.Valid() && tables.Valid() && ltree.Length >= 286 && dtree.Length >= 30
    requires TreeSends(ltree[..], lit) && TreeSends(dtree[..], dst) && ValidToken(t) && TokenCoded(lit, dst, t)
    requires lc == Lc(t) && isMatch == t.Match? && (isMatch ==> dx < dBuf.Length && dBuf[dx] == t.dist - 1)
    modifies w, w.outbuf
    ensures w.Valid() && dx' == if t.Match? then dx + 1 else dx
    ensures w.Sent() == old(w.Sent()) + TokenBits(lit, dst, t)
  {
    hide TreeSends, TokenBits, CodeBits, Pow2, Lc, TokenCoded, CodeSet;
    dx' := dx;
    if !isMatch {
      LiteralAt(ltree[..], lit, dst, t);
      RL.SendCode(w, ltree, lc, lit);
    } else {
      MatchAt(t);
      var dist := dBuf[dx];
      dx' := dx + 1;
      SendMatch(w, tables, ltree, dtree, lc, dist, lit, dst, t);
    }
  }

  // The tokens, in order.
  method SendTokens(w: Writer, buf: TokenBuffer, tables: CodeTables, ltree: array<CtData>, dtree: array<CtData>,
                    ghost lit: seq<nat>, ghost dst: seq<nat>, ghost s0: seq<bool>)
    requires w.Valid() && buf.Valid() && tables.Valid() && ltree.Length >= 286 && dtree.Length >= 30
    requires w.outbuf != buf.lBuf && FlagsReady(buf) && buf.lastLit != 0
    requires TreeSends(ltree[..], lit) && TreeSends(dtree[..], dst) && TokensCoded(lit, dst, buf.tokens)
    requires s0 == w.Sent()
    modifies w, w.outbuf
    ensures w.Valid()
    ensures w.Sent() == s0 + TokensBits(lit, dst, buf.tokens)
  {
    hide TreeSends, TokensCoded, TokensBits, TokenBits, CodeBits, Pow2, MatchCount, GroupFlags, Reading, LitsStored,
         DistsStored, FlagsStored, OpenFlags, Lc, ValidToken, TokenCoded, BytesBits, Writer.Bytes, Writer.Valid, Writer.Sent;
    ghost var ts := buf.tokens;
    SendNothing(lit, dst, ts, s0);
    var lx, dx, fx, flag := 0, 0, 0, 0;
    while true
      invariant lx < |ts| && w.Valid() && buf.Valid() && tables.Valid() && FlagsReady(buf)
      invariant TreeSends(ltree[..], lit) && TreeSends(dtree[..], dst)
      invariant Reading(ts, lx, dx, fx, flag)
      invariant TokensCoded(lit, dst, ts[..lx]) && w.Sent() == s0 + TokensBits(lit, dst, ts[..lx])
      decreases |ts| - lx
    {
      ghost var t, sent := ts[lx], TokensBits(lit, dst, ts[..lx]);
      ReadingAt(ts, lx, dx, fx, flag);
      BufferAt(buf.lBuf[..], buf.dBuf[..], ts, lx);
      TokenAt(lit, dst, ts, lx);
      ghost var flag0 := flag;
      if lx % 8 == 0 {
        flag := buf.flagBuf[fx];
      }
      ReadingStep(ts, lx, dx, fx, flag0, flag);
      if lx % 8 == 0 {
        fx := fx + 1;
      }
      dx := SendToken(w, tables, ltree, dtree, buf.lBuf[lx], flag % 2 == 1, buf.dBuf, dx, lit, dst, t);
      TokensBitsSnoc(lit, dst, ts, lx);
      ConcatAssoc(s0, sent, TokenBits(lit, dst, t));
      lx := lx + 1;
      flag := flag / 2;
      if lx >= buf.lastLit {
        break;
      }
    }
    assert ts[..lx] == ts;
  }

  lemma ReadingAt(ts: seq<Token>, lx: nat, dx: nat, fx: nat, flag: nat)
    requires Reading(ts, lx, dx, fx, flag)
    ensures dx == MatchCount(ts[..lx]) && fx == (lx + 7) / 8
    ensures lx % 8 == 0 ==> fx == lx / 8 && 8 * fx == lx
  {
  }

  lemma TokenAt(lit: seq<nat>, dst: seq<nat>, ts: seq<Token>, i: nat)
    requires TokensCoded(lit, dst, ts) && i < |ts|
    ensures ValidToken(ts[i]) && TokenCoded(lit, dst, ts[i])
  {
  }

  lemma LiteralAt(lt: seq<CtData>, lit: seq<nat>, dst: seq<nat>, t: Token)
    requires TreeSends(lt, lit) && |lt| >= 286 && t.Literal? && TokenCoded(lit, dst, t)
    ensures Lc(t) == t.b && t.b < |lit| && 0 < lit[t.b] <= 15 && lt[t.b].dl == lit[t.b] && CodeSet(lt[t.b], lit, t.b)
    ensures TokenBits(lit, dst, t) == CodeBits(lit, t.b)
  {
    hide CodeSet, CodeBits;
  }

  lemma MatchAt(t: Token)
    requires t.Match? && ValidToken(t)
    ensures Lc(t) == t.length - 3
  {
  }

  // ---------- the trees ----------

  method SendAllTrees(w: Writer, dynL: array<CtData>, dynD: array<CtData>, blTree: array<CtData>, lcodes: nat, dcodes: nat,
                      blcodes: nat, ghost lit: seq<nat>, ghost dist: seq<nat>, ghost cl: seq<nat>)
    requires w.Valid() && lcodes == |lit| && dcodes == |dist| && blTree.Length == 39
    requires TreesReady(dynL[..], dynD[..], blTree[..], lit, dist, cl, blcodes)
    modifies w, w.outbuf
    ensures w.Valid()
    ensures DynamicCodes(lit, dist, cl, blcodes)
    ensures w.Sent() == old(w.Sent()) + TreesBits(lit, dist, cl, blcodes)
  {
    hide Pow2, ToBits, CountBits, ClBits, RL.SymsBits, RL.RleOf, RL.Sendable, ValidLengths, CodesSet, RL.ShortCode, RL.Guarded,
         ClOrder;
    ghost var s0 := w.Sent();
    ghost var lb, db := RL.SymsBits(cl, RL.RleOf(lit)), RL.SymsBits(cl, RL.RleOf(dist));
    SendCounts(w, lcodes, dcodes, blcodes);
    SendClLengths(w, blTree, blcodes, cl);
    ghost var s1 := w.Sent();
    RL.SendTree(w, dynL, lcodes - 1, blTree, lit, cl);
    RL.SendTree(w, dynD, dcodes - 1, blTree, dist, cl);
    ConcatAssoc(s1, lb, db);
    ghost var counts, cls := CountBits(|lit|, |dist|, blcodes), ClBits(cl, 0, blcodes);
    ConcatAssoc(s0, counts, cls);
    ConcatAssoc(s0, counts + cls, lb + db);
  }

  method SendCounts(w: Writer, lcodes: nat, dcodes: nat, blcodes: nat)
    requires w.Valid() && 257 <= lcodes <= 286 && 1 <= dcodes <= 30 && 4 <= blcodes <= 19
    modifies w, w.outbuf
    ensures w.Valid()
    ensures w.Sent() == old(w.Sent()) + CountBits(lcodes, dcodes, blcodes)
  {
    hide Pow2, ToBits, BytesBits, Writer.Bytes, Writer.Valid, Writer.Sent;
    assert Pow2(5) == 32 && Pow2(4) == 16 by { Pow2Values(); }
    ghost var s0 := w.Sent();
    ghost var a, b, c := ToBits(lcodes - 257, 5), ToBits(dcodes - 1, 5), ToBits(blcodes - 4, 4);
    w.SendBits(lcodes - 257, 5);
    w.SendBits(dcodes - 1, 5);
    w.SendBits(blcodes - 4, 4);
    ConcatAssoc(s0, a, b);
    ConcatAssoc(s0, a + b, c);
  }

  lemma SetLens(t: seq<CtData>, lens: seq<nat>)
    requires CodesSet(t, lens)
    ensures |lens| <= |t| && forall n :: 0 <= n < |lens| ==> t[n].dl == lens[n]
  {
  }

  method SendClLengths(w: Writer, blTree: array<CtData>, blcodes: nat, ghost cl: seq<nat>)
    requires w.Valid() && blTree.Length == 39 && CodesSet(blTree[..], cl) && |cl| == 19 && blcodes <= 19
    requires forall x :: 0 <= x < 19 ==> cl[x] < 8
    modifies w, w.outbuf
    ensures w.Valid()
    ensures w.Sent() == old(w.Sent()) + ClBits(cl, 0, blcodes)
  {
    hide Pow2, ToBits, ClBits, CodesSet, ClOrder;
    SetLens(blTree[..], cl);
    assert Pow2(3) == 8 by { Pow2Values(); }
    ghost var s0 := w.Sent();
    var rank := 0;
    assert ClBits(cl, 0, 0) == [] by { NoClBits(cl); }
    assert s0 + [] == s0;
    while rank < blcodes
      invariant rank <= blcodes && w.Valid()
      invariant w.Sent() == s0 + ClBits(cl, 0, rank)
    {
      ghost var sent := ClBits(cl, 0, rank);
      ClBitsSnoc(cl, 0, rank);
      OrderIs(rank);
      w.SendBits(blTree[BL_ORDER[rank]].dl, 3);
      ConcatAssoc(s0, sent, ToBits(cl[ClOrder(rank)], 3));
      rank := rank + 1;
    }
  }

  lemma NoClBits(cl: seq<nat>)
    requires |cl| == 19
    ensures ClBits(cl, 0, 0) == []
  {
  }
}
