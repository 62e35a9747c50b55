/** The block coder seen from the matcher: what text has been tallied and what
    text has been flushed. */
module Encoder {
  import opened Arith
  import opened Bits
  import opened BitWriter
  import opened Rfc1951
  import opened Tables
  import opened Tokens
  import opened Tally
  import opened BlockFormat
  import opened Blocks

  // ---------- what a token adds to the text ----------

  lemma ExtendLiteral(ts: seq<Token>, out: seq<Byte>, b: Byte)
    requires Resolvable(ts, out)
    ensures Resolvable(ts + [Literal(b)], out) && Expand(ts + [Literal(b)], out) == Expand(ts, out) + [b]
  {
    hide Resolvable, Expand;
    ExpandLiteral(b, Expand(ts, out));
    ExpandConcat(ts, [Literal(b)], out);
  }

  lemma ExtendMatch(ts: seq<Token>, out: seq<Byte>, length: nat, dist: nat)
    requires Resolvable(ts, out) && 1 <= dist <= |Expand(ts, out)|
    ensures Resolvable(ts + [Match(length, dist)], out)
    ensures Expand(ts + [Match(length, dist)], out) == Copy(Expand(ts, out), dist, length)
  {
    hide Resolvable, Expand, Copy;
    ExpandMatch(length, dist, Expand(ts, out));
    ExpandConcat(ts, [Match(length, dist)], out);
  }

  lemma NoTokens(out: seq<Byte>)
    ensures Resolvable([], out) && Expand([], out) == out
  {
  }

  // A token stands for at most 258 bytes.
  lemma {:induction false} ExpandSize(ts: seq<Token>, out: seq<Byte>)
    requires Resolvable(ts, out) && ValidTokens(ts)
    ensures |out| <= |Expand(ts, out)| <= |out| + 258 * |ts|
    decreases |ts|
  {
    if ts != [] {
      match ts[0]
      case Literal(b) => ExpandSize(ts[1..], out + [b]);
      case Match(length, dist) => ExpandSize(ts[1..], Copy(out, dist, length));
    }
  }

  // ---------- the encoder ----------

  // The last tokens of `all` are `ts`.
  ghost predicate Ends(all: seq<Token>, ts: seq<Token>)
  {
    |ts| <= |all| && all[|all| - |ts|..] == ts
  }

  lemma EndsMore(all: seq<Token>, ts: seq<Token>, t: Token)
    requires Ends(all, ts)
    ensures Ends(all + [t], ts + [t])
  {
    assert (all + [t])[|all| - |ts|..] == all[|all| - |ts|..] + [t];
  }

  class TextCoder {
    const coder: BlockCoder
    ghost const before: seq<bool>   // what was sent before the compressed data
    ghost var flushed: seq<Byte>    // text in blocks that are already out
    ghost var text: seq<Byte>       // all text tallied so far
    ghost var all: seq<Token>       // all tokens tallied so far

    // The bit position where the compressed data starts.
    ghost const start: nat := |before|

    ghost function Parts(): set<object>
    {
      {this, coder, coder.w, coder.w.outbuf, coder.b, coder.b.heap, coder.b.depth, coder.b.blCount,
       coder.buf, coder.buf.lBuf, coder.buf.dBuf, coder.buf.flagBuf, coder.dynL, coder.dynD, coder.blTree,
       coder.tables.baseLength, coder.tables.lengthCode, coder.tables.baseDist, coder.tables.distCode,
       coder.tables.staticL, coder.tables.staticD}
    }

    // compressed_len follows the number of bits sent.
    ghost predicate Counted()
      reads this, coder, coder.w, coder.w.outbuf
      requires coder.w.Valid()
    {
      && start % 8 == 0 && before <= coder.w.Sent()
      && coder.compressedLen == U32(|coder.w.Sent()| - start)
    }

    ghost predicate Valid()
      reads Parts()
    {
      && coder.Valid() && Counted()
      && Resolvable(coder.buf.tokens, flushed) && Expand(coder.buf.tokens, flushed) == text
      && Produced(coder.w.Sent(), start, flushed)
      && ValidTokens(all) && Resolvable(all, []) && Expand(all, []) == text
      && Ends(all, coder.buf.tokens)
    }

    // The tokens of the current block.
    ghost function Tokens(): seq<Token>
      reads coder.buf
    {
      coder.buf.tokens
    }

    // The buffers cannot take another token.
    ghost predicate Fills(ts: seq<Token>)
    {
      |ts| == 8 * coder.buf.flagBuf.Length - 1 || MatchCount(ts) == coder.buf.dBuf.Length
    }

    // A block with the tokens `ts` ends when it is full, and otherwise only if
    // it has more than two bytes for each token.
    ghost predicate Stops(ts: seq<Token>, inLength: nat, flush: bool)
    {
      (Fills(ts) ==> flush) && (flush ==> Fills(ts) || |ts| < inLength / 2)
    }

    ghost predicate HasRoom()
      reads coder.buf
    {
      coder.buf.HasRoom()
    }

    constructor (c: BlockCoder)
      requires c.Valid() && c.buf.tokens == [] && c.compressedLen == 0 && |c.w.Sent()| % 8 == 0
      ensures Valid() && coder == c && before == c.w.Sent() && text == [] && flushed == [] && all == []
    {
      hide BlockCoder.Valid, Writer.Sent, Writer.Valid, Produced, Resolvable, Expand, BytesBits, Writer.Bytes;
      CoderParts(c);
      coder := c;
      before := c.w.Sent();
      flushed, text, all := [], [], [];
      new;
      NoTokens([]);
      NothingYet(c.w.Sent());
    }

    // An uncompressed byte.
    method Literal(b: Byte, inLength: nat) returns (flush: bool)
      requires Valid() && HasRoom()
      modifies Parts()
      ensures Valid() && text == old(text) + [b] && flushed == old(flushed) && all == old(all) + [Token.Literal(b)]
      ensures !flush ==> HasRoom()
      ensures Tokens() == old(Tokens()) + [Token.Literal(b)] && Stops(Tokens(), inLength, flush)
    {
      hide BlockCoder.Valid, Resolvable, Expand, Produced, U32, Writer.Sent, Writer.Valid, TokenBuffer.Valid, ValidTokens, Ends;
      ExtendLiteral(coder.buf.tokens, flushed, b);
      ExtendLiteral(all, [], b);
      ValidMore(all, Token.Literal(b));
      EndsMore(all, coder.buf.tokens, Token.Literal(b));
      CoderParts(coder);
      flush := coder.CtTally(0, b, inLength, Token.Literal(b));
      CoderParts(coder);
      FullIs(coder.buf);
      text := text + [b];
      all := all + [Token.Literal(b)];
    }

    // A match of `length` bytes, `dist` back.
    method Match(length: nat, dist: nat, inLength: nat) returns (flush: bool)
      requires Valid() && HasRoom() && 3 <= length <= 258 && 1 <= dist <= 0x8000 && dist <= |text|
      modifies Parts()
      ensures Valid() && text == Copy(old(text), dist, length) && flushed == old(flushed)
      ensures all == old(all) + [Token.Match(length, dist)]
      ensures !flush ==> HasRoom()
      ensures Tokens() == old(Tokens()) + [Token.Match(length, dist)] && Stops(Tokens(), inLength, flush)
    {
      hide BlockCoder.Valid, Resolvable, Expand, Produced, U32, Writer.Sent, Writer.Valid, TokenBuffer.Valid, ValidTokens,
           Copy, Ends;
      ExtendMatch(coder.buf.tokens, flushed, length, dist);
      ExtendMatch(all, [], length, dist);
      ValidMore(all, Token.Match(length, dist));
      EndsMore(all, coder.buf.tokens, Token.Match(length, dist));
      CoderParts(coder);
      flush := coder.CtTally(dist, length - 3, inLength, Token.Match(length, dist));
      CoderParts(coder);
      FullIs(coder.buf);
      text := Copy(text, dist, length);
      all := all + [Token.Match(length, dist)];
    }

    // FLUSH_BLOCK for a block that is not the last.
    method Flush(window: array<Byte>, blockStart: int, strstart: nat)
      requires Valid() && Roomy() && window !in Parts() && BlockText(window, blockStart, strstart)
      modifies Parts()
      ensures Valid() && HasRoom() && flushed == text == old(text) && all == old(all) && Tokens() == []
    {
      hide BlockCoder.Valid, Resolvable, Expand, Produced, Decodes, U32, Writer.Sent, Writer.Valid, TokenBuffer.Valid,
           ValidTokens,
           BlockCodes.Serves, Chosen, Padding, BytesBits, Writer.Bytes;
      CoderParts(coder);
      ghost var sent, n := coder.w.Sent(), coder.compressedLen;
      SameOffset(|sent|, start, n);
      StoredFits(blockStart, strstart);
      var r;
      ghost var x, c;
      r, x, c := coder.FlushBlock(window, blockStart, U32(strstart - blockStart), false, flushed);
      CoderParts(coder);
      AddBlock(sent, start, x, flushed, text, false);
      assert sent + x + Zeros(0) == sent + x;
      U32Add(|sent| - start, |x|);
      flushed := text;
      NoTokens(text);
      EmptyHasRoom(coder.buf);
    }

    // FLUSH_BLOCK for the last block; `r` is the compressed size in bytes.
    method Finish(window: array<Byte>, blockStart: int, strstart: nat) returns (r: nat)
      requires Valid() && window !in Parts() && BlockText(window, blockStart, strstart)
      modifies Parts()
      ensures text == old(text) && all == old(all)
      ensures ValidTokens(all) && Resolvable(all, []) && Expand(all, []) == text
      ensures coder.w.Valid() && coder.w.biValid == 0 && coder.w.Sent() == BytesBits(coder.w.Bytes())
      ensures Finished(coder.w.Sent(), start, text)
      ensures before <= coder.w.Sent() && SizeReturned(r, |coder.w.Sent()| - start)
    {
      hide BlockCoder.Valid, Resolvable, Expand, Produced, Finished, Decodes, U32, Writer.Sent, Writer.Valid, TokenBuffer.Valid,
           ValidTokens, BlockCodes.Serves, Chosen, Padding, BytesBits, Writer.Bytes, SizeReturned;
      CoderParts(coder);
      ghost var sent, n := coder.w.Sent(), coder.compressedLen;
      SameOffset(|sent|, start, n);
      StoredFits(blockStart, strstart);
      ghost var x, c;
      r, x, c := coder.FlushBlock(window, blockStart, U32(strstart - blockStart), true, flushed);
      CoderParts(coder);
      AddBlock(sent, start, x, flushed, text, true);
      FinishedMore(sent + x, start, text, Zeros(Padding(|sent + x|)));
      SizeIs(r, |sent| - start, |x|, Padding(|sent + x|), start);
    }

    // Buffers that can hold at least one token after a flush.
    ghost predicate Roomy()
    {
      coder.buf.flagBuf.Length >= 1 && coder.buf.dBuf.Length >= 1
    }

    // The block that starts at `blockStart` is the text not yet flushed; what
    // is still in the window can be stored.
    ghost predicate BlockText(window: array<Byte>, blockStart: int, strstart: nat)
      reads this, window
    {
      blockStart >= 0 ==> blockStart <= strstart <= window.Length && strstart - blockStart < 0x1_0000 &&
                          text == flushed + window[blockStart..strstart]
    }
  }

  // The size in bytes, as far as a 32-bit count of bits can tell it.
  ghost predicate SizeReturned(r: nat, bits: nat)
  {
    bits % 8 == 0 && r == bits / 8 % 0x2000_0000
  }

  lemma SizeIs(r: nat, n: nat, x: nat, pad: nat, start: nat)
    requires r == U32(U32(n) + x + 7) / 8 && pad == Padding(start + n + x) && start % 8 == 0
    ensures SizeReturned(r, n + x + pad)
  {
    hide U32;
    U32Add(n, x + 7);
    PadsUp(n + x, pad, start);
    EighthOf(n + x + 7);
  }

  lemma PadsUp(n: nat, pad: nat, start: nat)
    requires pad == Padding(start + n) && start % 8 == 0
    ensures (n + pad) % 8 == 0 && (n + pad) / 8 == (n + 7) / 8
  {
  }

  lemma EighthOf(x: nat)
    ensures U32(x) / 8 == x / 8 % 0x2000_0000
  {
    var q := x / 0x1_0000_0000;
    assert x == q * 0x1_0000_0000 + U32(x);
    assert x / 8 == q * 0x2000_0000 + U32(x) / 8;
    ModUnique(x / 8, 0x2000_0000, q, U32(x) / 8);
  }

  lemma SameOffset(sent: nat, start: nat, n: nat)
    requires start <= sent && start % 8 == 0 && n == U32(sent - start)
    ensures (sent - n) % 8 == 0
  {
    var q := (sent - start) / 0x1_0000_0000;
    assert sent - n == start + q * 0x1_0000_0000;
  }

  lemma StoredFits(blockStart: int, strstart: nat)
    ensures blockStart >= 0 && blockStart <= strstart && strstart - blockStart < 0x1_0000 ==>
              U32(strstart - blockStart) == strstart - blockStart
  {
  }

  lemma EmptyHasRoom(buf: TokenBuffer)
    requires buf.Valid() && buf.tokens == [] && buf.flagBuf.Length >= 1 && buf.dBuf.Length >= 1
    ensures buf.HasRoom()
  {
  }

  lemma FullIs(buf: TokenBuffer)
    requires buf.Valid()
    ensures buf.lastLit == |buf.tokens| && buf.lastDist == MatchCount(buf.tokens)
  {
  }

  lemma ValidMore(ts: seq<Token>, t: Token)
    requires ValidTokens(ts) && ValidToken(t)
    ensures ValidTokens(ts + [t])
  {
  }

  lemma CoderParts(c: BlockCoder)
    requires c.Valid()
    ensures c.w.Valid() && c.Separate() && c.buf.Valid()
  {
  }
}
