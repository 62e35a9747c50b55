/** ct_init, ct_tally, init_block and flush_block: the second half of the
    compressor, from tokens to blocks. */
module Blocks {
  import opened Arith
  import opened Bits
  import opened BitWriter
  import opened Rfc1951
  import opened Canonical
  import opened Codes
  import opened HeapMerge
  import RL = RunLength
  import opened Tables
  import opened Tokens
  import opened Tally
  import opened BlockFormat
  import opened BlockTrees
  import opened BlockData

  // ---------- which kind of block ----------

  function InBytes(bits: nat): nat
  {
    (bits + 7) / 8
  }

  ghost function StaticBlock(eof: bool, ts: seq<Token>): seq<bool>
    requires TokensCoded(FixedLit(), FixedDist(), ts)
  {
    HeaderBits(1, eof) + DataBits(FixedLit(), FixedDist(), ts)
  }

  ghost function DynamicBlock(eof: bool, ts: seq<Token>, lit: seq<nat>, dist: seq<nat>, cl: seq<nat>, k: nat): seq<bool>
    requires DynamicCodes(lit, dist, cl, k) && TokensCoded(lit, dist, ts)
  {
    HeaderBits(2, eof) + DynamicBits(lit, dist, cl, k, ts)
  }

  ghost function StoredBlock(eof: bool, p: nat, bytes: seq<Byte>): seq<bool>
    requires |bytes| < 0x1_0000
  {
    HeaderBits(0, eof) + StoredBits(p + 3, bytes)
  }

  // The three codes of a dynamic block and how many code lengths are sent.
  datatype BlockCodes = BlockCodes(lit: seq<nat>, dist: seq<nat>, cl: seq<nat>, k: nat) {
    // The codes serve for a dynamic block with the tokens `ts`.
    ghost predicate Serves(ts: seq<Token>)
    {
      && DynamicCodes(lit, dist, cl, k) && TokensCoded(lit, dist, ts) && Coded(lit, END_BLOCK)
      && TokensCoded(FixedLit(), FixedDist(), ts) && OnlyUsed(lit, ts)
    }

    ghost function Dynamic(eof: bool, ts: seq<Token>): seq<bool>
      requires Serves(ts)
    {
      DynamicBlock(eof, ts, lit, dist, cl, k)
    }
  }

  // How flush_block chooses: sizes are rounded up to bytes, and a stored block is
  // taken to need four bytes more than its data. It is preferred when the data is
  // still there and it seems no larger, and static is preferred to dynamic.
  // BlockChoice says how good this choice is.
  ghost predicate Chosen(x: seq<bool>, eof: bool, p: nat, ts: seq<Token>, data: Option<seq<Byte>>, c: BlockCodes)
    requires c.Serves(ts) && (data.Some? ==> |data.value| < 0x1_0000)
  {
    var stat, dyn := StaticBlock(eof, ts), c.Dynamic(eof, ts);
    var s, d := InBytes(|stat|), InBytes(|dyn|);
    x == if data.Some? && |data.value| + 4 <= s && |data.value| + 4 <= d then StoredBlock(eof, p, data.value)
         else if s <= d then stat
         else dyn
  }

  // Whichever block is chosen, it stands for the tokens.
  lemma ChosenDecodes(x: seq<bool>, eof: bool, p: nat, ts: seq<Token>, data: Option<seq<Byte>>, c: BlockCodes, out: seq<Byte>)
    requires c.Serves(ts) && (data.Some? ==> |data.value| < 0x1_0000)
    requires Chosen(x, eof, p, ts, data, c) && Resolvable(ts, out)
    requires data.Some? ==> Expand(ts, out) == out + data.value
    ensures Decodes(x, p, out, Expand(ts, out), eof)
  {
    hide Decodes, DataBits, DynamicBits, DynamicCodes, TokensCoded, HeaderBits, StoredBits, Expand, BodyDecodes, FixedLit,
         FixedDist;
    if x == StaticBlock(eof, ts) {
      StaticDecodes(p + 3, ts, out);
      BlockDecodes(DataBits(FixedLit(), FixedDist(), ts), p, 1, eof, out, Expand(ts, out));
    } else if x == c.Dynamic(eof, ts) {
      DynamicDecodes(p + 3, c.lit, c.dist, c.cl, c.k, ts, out);
      BlockDecodes(DynamicBits(c.lit, c.dist, c.cl, c.k, ts), p, 2, eof, out, Expand(ts, out));
    } else {
      StoredDecodes(p + 3, data.value, out);
      BlockDecodes(StoredBits(p + 3, data.value), p, 0, eof, out, Expand(ts, out));
    }
  }

  // Rounding compressed_len up for a stored block follows the bit position,
  // even when the 32-bit counter wraps.
  lemma StoredLength(c: nat, p: nat, n: nat)
    requires c < 0x1_0000_0000 && (p - c) % 8 == 0
    ensures var a := U32(c + 10);
            U32(a - a % 8 + (n + 4) * 8) == U32(c + 3 + (Padding(p + 3) + 32 + 8 * n))
  {
    var a := U32(c + 10);
    var pad := Padding(p + 3);
    if c + 10 < 0x1_0000_0000 {
      assert a - a % 8 == c + 3 + pad;
    } else {
      assert a == c + 10 - 0x1_0000_0000;
      assert a - a % 8 + 0x1_0000_0000 == c + 3 + pad;
      ModShift(a - a % 8 + (n + 4) * 8, 1, 0x1_0000_0000);
    }
  }

  // ---------- init_block ----------

  // init_block clears the frequencies of one tree.
  method ClearFreqs(tree: array<CtData>, n: nat)
    requires n <= tree.Length
    modifies tree
    ensures NoFreq(tree[..], n)
  {
    var i := 0;
    while i < n
      invariant i <= n && NoFreq(tree[..], i)
    {
      tree[i] := tree[i].(fc := 0);
      i := i + 1;
    }
  }

  lemma FreshCounts(lt: seq<CtData>, dt: seq<CtData>)
    requires |lt| == 573 && |dt| == 61 && NoFreq(dt, 30)
    requires forall i :: 0 <= i < 286 ==> lt[i].fc == if i == END_BLOCK then 1 else 0
    ensures LitsCounted(lt, []) && DistsCounted(dt, [])
  {
    NoCounts();
  }

  method ClearTrees(dynL: array<CtData>, dynD: array<CtData>, blTree: array<CtData>)
    requires dynL.Length == 573 && dynD.Length == 61 && blTree.Length == 39
    modifies dynL, dynD, blTree
    ensures LitsCounted(dynL[..], []) && DistsCounted(dynD[..], []) && NoFreq(blTree[..], 19)
  {
    hide LitsCounted, DistsCounted;
    ClearFreqs(dynL, 286);
    ClearFreqs(dynD, 30);
    ClearFreqs(blTree, 19);
    dynL[END_BLOCK] := dynL[END_BLOCK].(fc := 1);
    FreshCounts(dynL[..], dynD[..]);
  }

  class BlockCoder {
    const w: Writer
    const b: Builder
    const buf: TokenBuffer
    const tables: CodeTables
    const dynL: array<CtData>
    const dynD: array<CtData>
    const blTree: array<CtData>
    var compressedLen: nat

    ghost predicate Separate()
    {
      && dynL.Length == 573 && dynD.Length == 61 && blTree.Length == 39
      && b.Valid() && w.outbuf != buf.lBuf
      && {b.heap, b.depth, b.blCount} !! {buf.dBuf, buf.flagBuf}
      && {b.heap, b.depth, b.blCount, buf.dBuf, buf.flagBuf} !!
           {tables.baseLength, tables.lengthCode, tables.baseDist, tables.distCode}
      && {dynL, dynD, blTree} !! {tables.staticL, tables.staticD}
    }

    ghost predicate Valid()
      reads this, w, w.outbuf, b, buf, buf.lBuf, buf.dBuf, buf.flagBuf, tables.baseLength, tables.lengthCode, tables.baseDist,
            tables.distCode, tables.staticL, tables.staticD, dynL, dynD, blTree
    {
      && Separate() && tables.Ready() && w.Valid() && buf.Valid()
      && ValidTokens(buf.tokens) && LitsCounted(dynL[..], buf.tokens) && DistsCounted(dynD[..], buf.tokens)
      && NoFreq(blTree[..], 19) && b.optLen == 0 && b.staticLen == 0
      && compressedLen < 0x1_0000_0000
    }

    // ct_init
    constructor (writer: Writer, litBufSize: nat, inBufSize: nat, distBufSize: nat)
      requires writer.Valid() && 0 < litBufSize <= inBufSize && litBufSize % 8 == 0 && litBufSize <= 0x8000
      ensures Valid() && w == writer && buf.tokens == [] && compressedLen == 0
      ensures buf.flagBuf.Length == litBufSize / 8 && buf.dBuf.Length == distBufSize
      ensures fresh(b) && fresh(b.heap) && fresh(b.depth) && fresh(b.blCount)
      ensures fresh(buf) && fresh(buf.lBuf) && fresh(buf.dBuf) && fresh(buf.flagBuf)
      ensures fresh(dynL) && fresh(dynD) && fresh(blTree) && fresh(tables.staticL) && fresh(tables.staticD)
      ensures fresh(tables.baseLength) && fresh(tables.lengthCode) && fresh(tables.baseDist) && fresh(tables.distCode)
    {
      hide CodeTables.Ready, TokenBuffer.Valid, LitsCounted, DistsCounted, NoFreq,
           ValidTokens, Pow2, BytesBits, Writer.Bytes, Writer.Valid, Writer.Sent;
      var builder := new Builder();
      tables := new CodeTables(builder.blCount);
      b := builder;
      w := writer;
      buf := new TokenBuffer(litBufSize, inBufSize, distBufSize);
      dynL := new CtData[573];
      dynD := new CtData[61];
      blTree := new CtData[39];
      compressedLen := 0;
      new;
      InitBlock();
    }

    method InitBlock()
      requires Separate() && tables.Ready() && w.Valid() && buf.Valid() && compressedLen < 0x1_0000_0000
      modifies dynL, dynD, blTree, b`optLen, b`staticLen, buf
      ensures Valid() && buf.tokens == []
    {
      hide CodeTables.Ready, TokenBuffer.Valid, LitsCounted, DistsCounted;
      ClearTrees(dynL, dynD, blTree);
      b.optLen := 0;
      b.staticLen := 0;
      buf.Reset();
    }

    // The token buffers are full, so the block has to end.
    ghost predicate Full()
      reads buf
    {
      buf.lastLit == 8 * buf.flagBuf.Length - 1 || buf.lastDist == buf.dBuf.Length
    }

    // Save one token and count its symbols; `flush` tells that the block must
    // be flushed: because it is full, or because it seems to pay off to stop
    // here, which takes a block of more than two bytes for each token.
    // `inLength` is the length of the text from block_start to strstart.
    method CtTally(dist: nat, lc: Byte, inLength: nat, ghost t: Token) returns (flush: bool)
      requires Valid() && buf.HasRoom()
      requires ValidToken(t) && lc == Lc(t) && dist == (if t.Match? then t.dist else 0)
      modifies buf, buf.lBuf, buf.dBuf, buf.flagBuf, dynL, dynD
      ensures Valid() && buf.tokens == old(buf.tokens) + [t]
      ensures !flush ==> buf.HasRoom()
      ensures Full() ==> flush
      ensures flush ==> Full() || |buf.tokens| < inLength / 2
    {
      hide CodeTables.Ready, TokenBuffer.Valid, LitsCounted, DistsCounted, NoFreq, Pow2, BytesBits, Writer.Bytes, Writer.Valid;
      ghost var ts := buf.tokens;
      LitsCountedAppend(dynL[..], ts, t);
      DistsCountedAppend(dynD[..], ts, t);
      BufferSize(buf);
      CountSymbols(tables, dynL, dynD, dist, lc, ts, t);
      buf.Append(dist, lc, t);
      BufferSize(buf);
      if buf.lastLit % 0x1000 == 0 {
        var outLength := Estimate(dynD, buf.lastLit, buf.tokens);
        if buf.lastDist < buf.lastLit / 2 && outLength < inLength / 2 {
          return true;
        }
      }
      return buf.lastLit == 8 * buf.flagBuf.Length - 1 || buf.lastDist == buf.dBuf.Length;
    }

    // The trees of the current block.
    method BuildBlockTrees() returns (maxL: nat, maxD: nat, maxBlindex: nat, ghost c: BlockCodes)
      requires Valid()
      modifies b, b.heap, b.depth, b.blCount, dynL, dynD, blTree
      ensures c.Serves(buf.tokens) && c.k == maxBlindex + 1 && |c.lit| == maxL + 1 && |c.dist| == maxD + 1
      ensures DataReady(dynL[..], dynD[..], c.lit, c.dist, buf.tokens)
      ensures TreesReady(dynL[..], dynD[..], blTree[..], c.lit, c.dist, c.cl, c.k)
      ensures b.optLen + 3 == |c.Dynamic(false, buf.tokens)| && b.staticLen + 3 == |StaticBlock(false, buf.tokens)|
      ensures b.optLen < 0x8000_0000 && b.staticLen < 0x8000_0000
    {
      hide TokenBuffer.Valid, LitsCounted, DistsCounted, NoFreq, Pow2, CodesSet, CodesSetIn, FixedLit, FixedDist, DataReady,
           TreesReady, DataBits, TreesBits, DynamicCodes, TokensCoded, Coded, CodeTables.Valid;
      ghost var ts := buf.tokens;
      BufferSize(buf);
      ghost var lit, dist, cl;
      maxL, maxD, lit, dist := BuildDataTrees(b, dynL, dynD, tables.staticL, tables.staticD, ts);
      ReadySizes(dynL[..], dynD[..], lit, dist, ts);
      FixedLitValid();
      FixedDistValid();
      DataBound(lit, dist, ts);
      DataBound(FixedLit(), FixedDist(), ts);
      maxBlindex, cl := BuildBlTree(b, dynL, maxL, dynD, maxD, blTree, lit, dist, ts);
      ReadyCodes(dynL[..], dynD[..], blTree[..], lit, dist, cl, maxBlindex + 1);
      c := BlockCodes(lit, dist, cl, maxBlindex + 1);
    }

    // Send the block in the form chosen.
    method EmitBlock(text: array<Byte>, blockStart: int, storedLen: nat, eof: bool, maxL: nat, maxD: nat, maxBlindex: nat,
                     ghost c: BlockCodes)
      returns (ghost x: seq<bool>)
      requires Separate() && tables.Ready() && w.Valid() && buf.Valid() && FlagsReady(buf)
      requires c.Serves(buf.tokens) && c.k == maxBlindex + 1 && |c.lit| == maxL + 1 && |c.dist| == maxD + 1
      requires DataReady(dynL[..], dynD[..], c.lit, c.dist, buf.tokens)
      requires TreesReady(dynL[..], dynD[..], blTree[..], c.lit, c.dist, c.cl, c.k)
      requires b.optLen + 3 == |c.Dynamic(false, buf.tokens)| && b.staticLen + 3 == |StaticBlock(false, buf.tokens)|
      requires b.optLen < 0x8000_0000 && b.staticLen < 0x8000_0000
      requires text != w.outbuf && InText(text, blockStart, storedLen)
      requires compressedLen < 0x1_0000_0000 && (|w.Sent()| - compressedLen) % 8 == 0
      modifies w, w.outbuf, this`compressedLen
      ensures w.Valid() && compressedLen < 0x1_0000_0000
      ensures Chosen(x, eof, |old(w.Sent())|, buf.tokens, DataOf(text, blockStart, storedLen), c)
      ensures w.Sent() == old(w.Sent()) + x
      ensures compressedLen == U32(old(compressedLen) + |x|)
    {
      hide Padding, DataReady, TreesReady, BlockCodes.Serves, StaticBlock, BlockCodes.Dynamic, StoredBlock, TokenBuffer.Valid,
           Writer.Valid, Writer.Sent, FlagsReady, CodeTables.Ready, Chosen, U32;
      ghost var p, data := |w.Sent()|, DataOf(text, blockStart, storedLen);
      Choice(eof, p, buf.tokens, data, c, b.optLen, b.staticLen, storedLen);
      var optLenb, staticLenb := U32(b.optLen + 3 + 7) / 8, U32(b.staticLen + 3 + 7) / 8;
      if staticLenb <= optLenb {
        optLenb := staticLenb;
      }
      if U32(storedLen + 4) <= optLenb && blockStart >= 0 {
        StoredLength(compressedLen, p, storedLen);
        x := EmitStored(w, text, blockStart, storedLen, eof);
        var aligned := U32(compressedLen + 3 + 7);
        compressedLen := U32(aligned - aligned % 8 + (storedLen + 4) * 8);
      } else if staticLenb == optLenb {
        EmitStatic(w, buf, tables, eof);
        x := StaticBlock(eof, buf.tokens);
        compressedLen := U32(compressedLen + 3 + b.staticLen);
      } else {
        EmitDynamic(w, buf, tables, dynL, dynD, blTree, maxL, maxD, maxBlindex, eof, c);
        x := c.Dynamic(eof, buf.tokens);
        compressedLen := U32(compressedLen + 3 + b.optLen);
      }
    }

    // Build the trees and send the block.
    method EncodeBlock(text: array<Byte>, blockStart: int, storedLen: nat, eof: bool)
      returns (ghost x: seq<bool>, ghost c: BlockCodes)
      requires Valid() && text != w.outbuf && InText(text, blockStart, storedLen)
      requires (|w.Sent()| - compressedLen) % 8 == 0
      modifies this`compressedLen, w, w.outbuf, b, b.heap, b.depth, b.blCount, buf.flagBuf, dynL, dynD, blTree
      ensures w.Valid() && buf.Valid() && tables.Ready() && compressedLen < 0x1_0000_0000
      ensures c.Serves(buf.tokens)
      ensures Chosen(x, eof, |old(w.Sent())|, buf.tokens, DataOf(text, blockStart, storedLen), c)
      ensures w.Sent() == old(w.Sent()) + x
      ensures compressedLen == U32(old(compressedLen) + |x|)
    {
      hide TokenBuffer.Valid, CodeTables.Ready, LitsCounted, DistsCounted, NoFreq, DataReady, TreesReady, BlockCodes.Serves,
           Chosen, Padding, U32, BlockCodes.Dynamic, StaticBlock, Writer.Valid, Writer.Sent, GroupFlags, BytesBits, Writer.Bytes;
      buf.SaveLastFlags();
      BufferSize(buf);
      assert FlagsReady(buf);
      var maxL, maxD, maxBlindex;
      maxL, maxD, maxBlindex, c := BuildBlockTrees();
      x := EmitBlock(text, blockStart, storedLen, eof, maxL, maxD, maxBlindex, c);
    }

    // Pad the output after the last block.
    method PadOutput()
      requires w.Valid() && compressedLen < 0x1_0000_0000
      modifies this`compressedLen, w, w.outbuf
      ensures w.Valid() && w.biValid == 0 && w.Sent() == BytesBits(w.Bytes())
      ensures w.Sent() == old(w.Sent()) + Zeros(Padding(|old(w.Sent())|))
      ensures compressedLen == U32(old(compressedLen) + 7)
    {
      hide Padding, Writer.Valid, Writer.Sent, BytesBits, Writer.Bytes, Zeros, U32, Pow2;
      w.BiWindup();
      compressedLen := U32(compressedLen + 7);
    }

    // Choose an encoding for the current block and output it. What is
    // sent decodes to the text the tokens stand for, compressed_len follows the
    // number of bits sent, and the final block is padded to a byte boundary.
    method FlushBlock(text: array<Byte>, blockStart: int, storedLen: nat, eof: bool, ghost out: seq<Byte>)
      returns (r: nat, ghost x: seq<bool>, ghost c: BlockCodes)
      requires Valid() && text != w.outbuf && InText(text, blockStart, storedLen)
      requires Resolvable(buf.tokens, out)
      requires blockStart >= 0 ==> Expand(buf.tokens, out) == out + text[blockStart..blockStart + storedLen]
      requires (|w.Sent()| - compressedLen) % 8 == 0
      modifies this, w, w.outbuf, b, b.heap, b.depth, b.blCount, buf, buf.flagBuf, dynL, dynD, blTree
      ensures Valid() && buf.tokens == []
      ensures c.Serves(old(buf.tokens))
      ensures Chosen(x, eof, |old(w.Sent())|, old(buf.tokens), old(DataOf(text, blockStart, storedLen)), c)
      ensures Decodes(x, |old(w.Sent())|, out, Expand(old(buf.tokens), out), eof)
      ensures w.Sent() == old(w.Sent()) + x + Zeros(if eof then Padding(|old(w.Sent()) + x|) else 0)
      ensures compressedLen == U32(old(compressedLen) + |x| + if eof then 7 else 0)
      ensures r == compressedLen / 8
      ensures eof ==> w.biValid == 0 && w.Sent() == BytesBits(w.Bytes())
    {
      hide TokenBuffer.Valid, CodeTables.Ready, LitsCounted, DistsCounted, NoFreq, DataReady, TreesReady, BlockCodes.Serves,
           Chosen, Decodes, Expand, Resolvable, Padding, U32, BlockCodes.Dynamic, StaticBlock, Writer.Valid, Writer.Sent,
               BytesBits, Writer.Bytes;
      ghost var s0, ts, data, n0 := w.Sent(), buf.tokens, DataOf(text, blockStart, storedLen), compressedLen;
      x, c := EncodeBlock(text, blockStart, storedLen, eof);
      ChosenDecodes(x, eof, |s0|, ts, data, c, out);
      InitBlock();
      assert Zeros(0) == [] && s0 + x + [] == s0 + x;
      if eof {
        PadOutput();
        U32Add(n0 + |x|, 7);
      }
      r := compressedLen / 8;
    }
  }

  // The uncompressed block lies in `text`, if it is still there at all.
  ghost predicate InText(text: array<Byte>, blockStart: int, storedLen: nat)
  {
    blockStart >= 0 ==> blockStart + storedLen <= text.Length && storedLen < 0x1_0000
  }

  ghost function DataOf(text: array<Byte>, blockStart: int, storedLen: nat): (r: Option<seq<Byte>>)
    requires InText(text, blockStart, storedLen)
    reads text
    ensures r.Some? <==> blockStart >= 0
    ensures r.Some? ==> |r.value| == storedLen < 0x1_0000
  {
    if blockStart >= 0 then Some(text[blockStart..blockStart + storedLen]) else None
  }

  lemma SameSize(eof: bool, ts: seq<Token>, c: BlockCodes)
    requires c.Serves(ts)
    ensures TokensCoded(FixedLit(), FixedDist(), ts)
    ensures |StaticBlock(eof, ts)| == |StaticBlock(false, ts)| && |c.Dynamic(eof, ts)| == |c.Dynamic(false, ts)|
  {
    hide HeaderBits, DataBits, DynamicBits, TokensCoded, DynamicCodes, FixedLit, FixedDist;
  }

  // The comparisons of flush_block, which use 32-bit counters, make that choice.
  lemma Choice(eof: bool, p: nat, ts: seq<Token>, data: Option<seq<Byte>>, c: BlockCodes, optLen: nat, staticLen: nat,
               storedLen: nat)
    requires c.Serves(ts) && optLen + 3 == |c.Dynamic(false, ts)| && staticLen + 3 == |StaticBlock(false, ts)|
    requires optLen < 0x8000_0000 && staticLen < 0x8000_0000
    requires data.Some? ==> |data.value| == storedLen < 0x1_0000
    ensures TokensCoded(FixedLit(), FixedDist(), ts)
    ensures |StaticBlock(eof, ts)| == staticLen + 3 && |c.Dynamic(eof, ts)| == optLen + 3
    ensures var o, s := U32(optLen + 3 + 7) / 8, U32(staticLen + 3 + 7) / 8;
            var best := if s <= o then s else o;
            if U32(storedLen + 4) <= best && data.Some? then Chosen(StoredBlock(eof, p, data.value), eof, p, ts, data, c)
            else if s == best then Chosen(StaticBlock(eof, ts), eof, p, ts, data, c)
            else Chosen(c.Dynamic(eof, ts), eof, p, ts, data, c)
  {
    hide StaticBlock, BlockCodes.Dynamic, BlockCodes.Serves, StoredBlock;
    SameSize(eof, ts, c);
  }

  method SendHeader(w: Writer, btype: nat, eof: bool)
    requires w.Valid() && btype < 3
    modifies w, w.outbuf
    ensures w.Valid() && w.Sent() == old(w.Sent()) + HeaderBits(btype, eof)
  {
    hide ToBits, Pow2;
    assert Pow2(3) == 8 by { Pow2Values(); }
    w.SendBits(2 * btype + if eof then 1 else 0, 3);
  }

  method EmitStored(w: Writer, text: array<Byte>, start: nat, len: nat, eof: bool) returns (ghost x: seq<bool>)
    requires w.Valid() && text != w.outbuf && start + len <= text.Length && len < 0x1_0000
    modifies w, w.outbuf
    ensures w.Valid() && w.Sent() == old(w.Sent()) + x
    ensures x == StoredBlock(eof, |old(w.Sent())|, text[start..start + len])
    ensures |x| == 3 + (Padding(|old(w.Sent())| + 3) + 32 + 8 * len)
  {
    hide ToBits, BytesBits, HeaderBits, Padding, Zeros, Pow2;
    ghost var s0, data := w.Sent(), text[start..start + len];
    SendHeader(w, 0, eof);
    ghost var s1 := w.Sent();
    w.CopyBlock(text, start, len, true);
    x := StoredBlock(eof, |s0|, data);
    StoredConcat(s0, HeaderBits(0, eof), Zeros(Padding(|s1|)), ToBits(len, 16) + ToBits(0xffff - len, 16), BytesBits(data));
  }

  lemma StoredConcat(s0: seq<bool>, h: seq<bool>, z: seq<bool>, l: seq<bool>, d: seq<bool>)
    ensures s0 + h + z + l + d == s0 + (h + (z + l + d))
  {
  }

  method EmitStatic(w: Writer, buf: TokenBuffer, tables: CodeTables, eof: bool)
    requires w.Valid() && buf.Valid() && tables.Ready() && w.outbuf != buf.lBuf && FlagsReady(buf)
    requires TokensCoded(FixedLit(), FixedDist(), buf.tokens)
    modifies w, w.outbuf
    ensures w.Valid() && w.Sent() == old(w.Sent()) + StaticBlock(eof, buf.tokens)
  {
    hide CodesSet, CodesSetIn, CodeTables.Valid, ValidLengths, TreeSends, TokensCoded, DataBits, HeaderBits, FixedDist,
         TokenBuffer.Valid;
    ghost var s0 := w.Sent();
    FixedLitValid();
    FixedDistValid();
    SetSends(tables.staticL[..], FixedLit());
    SetInSends(tables.staticD[..], FixedDist());
    SendHeader(w, 1, eof);
    CompressBlock(w, buf, tables, tables.staticL, tables.staticD, FixedLit(), FixedDist());
    ConcatAssoc(s0, HeaderBits(1, eof), DataBits(FixedLit(), FixedDist(), buf.tokens));
  }

  method EmitDynamic(w: Writer, buf: TokenBuffer, tables: CodeTables, dynL: array<CtData>, dynD: array<CtData>,
                     blTree: array<CtData>, maxL: nat, maxD: nat, maxBlindex: nat, eof: bool, ghost c: BlockCodes)
    requires w.Valid() && buf.Valid() && tables.Ready() && w.outbuf != buf.lBuf && FlagsReady(buf)
    requires dynL.Length == 573 && dynD.Length == 61 && blTree.Length == 39
    requires c.Serves(buf.tokens) && c.k == maxBlindex + 1 && |c.lit| == maxL + 1 && |c.dist| == maxD + 1
    requires DataReady(dynL[..], dynD[..], c.lit, c.dist, buf.tokens)
    requires TreesReady(dynL[..], dynD[..], blTree[..], c.lit, c.dist, c.cl, c.k)
    modifies w, w.outbuf
    ensures w.Valid() && w.Sent() == old(w.Sent()) + c.Dynamic(eof, buf.tokens)
  {
    hide CodesSet, CodesSetIn, CodeTables.Valid, ValidLengths, TreeSends, TokensCoded, DataBits, HeaderBits, DataReady,
         TreesReady, TreesBits, DynamicCodes, TokenBuffer.Valid, FixedLit, FixedDist;
    ghost var s0, ts := w.Sent(), buf.tokens;
    ghost var trees, data := TreesBits(c.lit, c.dist, c.cl, c.k), DataBits(c.lit, c.dist, ts);
    ReadySizes(dynL[..], dynD[..], c.lit, c.dist, ts);
    SetSends(dynL[..], c.lit);
    SetSends(dynD[..], c.dist);
    SendHeader(w, 2, eof);
    SendAllTrees(w, dynL, dynD, blTree, maxL + 1, maxD + 1, maxBlindex + 1, c.lit, c.dist, c.cl);
    CompressBlock(w, buf, tables, dynL, dynD, c.lit, c.dist);
    DynamicConcat(s0, HeaderBits(2, eof), trees, data);
  }

  lemma DynamicConcat(s0: seq<bool>, h: seq<bool>, t: seq<bool>, d: seq<bool>)
    ensures s0 + h + t + d == s0 + (h + (t + d))
  {
  }

  // An estimate of the compressed length in bytes; at least one for each token.
  method Estimate(dynD: array<CtData>, lastLit: nat, ghost ts: seq<Token>) returns (outLength: nat)
    requires dynD.Length == 61 && lastLit == |ts| < 0x8000 && ValidTokens(ts) && DistsCounted(dynD[..], ts)
    ensures outLength >= lastLit
  {
    hide DistsCounted, DistExtra;
    outLength := U32(lastLit * 8);
    var dcode := 0;
    while dcode < 30
      invariant 0 <= dcode <= 30 && 8 * lastLit <= outLength <= 8 * lastLit + dcode * 0x10_0000
    {
      FewDistances(dynD[..], ts, dcode);
      FewExtra(dcode);
      SmallProduct(dynD[dcode].fc, 5 + DistExtra(dcode));
      outLength := U32(outLength + dynD[dcode].fc * (5 + DistExtra(dcode)));
      dcode := dcode + 1;
    }
    outLength := outLength / 8;
  }

  lemma FewDistances(dt: seq<CtData>, ts: seq<Token>, d: nat)
    requires ValidTokens(ts) && DistsCounted(dt, ts) && d < 30
    ensures dt[d].fc <= |ts|
  {
    CountBounds(ts, d);
  }

  lemma SmallProduct(f: nat, c: nat)
    requires f < 0x8000 && c <= 18
    ensures 0 <= f * c < 0x10_0000
  {
    MulMono(c, 18, f);
  }

  lemma BufferSize(buf: TokenBuffer)
    requires buf.Valid()
    ensures buf.lastLit == |buf.tokens| < 0x8000 && buf.lastLit < 8 * buf.flagBuf.Length
    ensures buf.lastDist <= buf.dBuf.Length && buf.lastFlags < buf.flagBuf.Length
  {
  }

  // The frequency part of ct_tally.
  method CountSymbols(tables: CodeTables, dynL: array<CtData>, dynD: array<CtData>, dist: nat, lc: Byte,
                      ghost ts: seq<Token>, ghost t: Token)
    requires tables.Ready() && dynL.Length == 573 && dynD.Length == 61 && |ts| < 0x8000
    requires ValidTokens(ts) && LitsCounted(dynL[..], ts) && DistsCounted(dynD[..], ts)
    requires ValidToken(t) && lc == Lc(t) && dist == (if t.Match? then t.dist else 0)
    modifies dynL, dynD
    ensures ValidTokens(ts + [t]) && LitsCounted(dynL[..], ts + [t]) && DistsCounted(dynD[..], ts + [t])
  {
    hide LitsCounted, DistsCounted, LengthCode, DistCode, CodesSet, CodesSetIn, FixedLit, FixedDist;
    ghost var lt, dt := dynL[..], dynD[..];
    LitsCountedAppend(lt, ts, t);
    DistsCountedAppend(dt, ts, t);
    if dist == 0 {
      Bump(dynL, lc);
    } else {
      var d := dist - 1;
      Bump(dynL, tables.lengthCode[lc] + 257);
      Bump(dynD, tables.DCode(d));
    }
    assert dynL[..] == Increment(lt, LitSym(t));
    assert dynD[..] == if t.Match? then Increment(dt, DistSym(t)) else dt;
  }

  method Bump(tree: array<CtData>, s: nat)
    requires s < tree.Length && tree[s].fc < 0xffff
    modifies tree
    ensures tree[..] == Increment(old(tree[..]), s)
  {
    tree[s] := tree[s].(fc := U16(tree[s].fc + 1));
  }
}
