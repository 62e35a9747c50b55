/** Two remarks in the compressor, made exact: how far behind the window a search
    may look, and when it is too late to store a block. */
module Limits {
  import opened Arith
  import opened Bits
  import opened Rfc1951
  import opened Canonical
  import opened Tables
  import opened Tokens
  import opened Tally
  import opened BlockFormat
  import opened BlockTrees
  import opened Blocks
  import opened Encoder
  import opened Hash
  import opened Chains
  import opened Window
  import opened Search
  import opened LazyMatch
  import opened Compressor

  // ---------- longest_match: "insufficient lookahead" ----------

  // Before the end of the input is noted the condition of the assertion holds at
  // every search, and nothing behind the window is looked at.
  lemma SearchInside(sw: SlidingWindow, enc: TextCoder, available: bool, len: nat, head: nat, found: nat, top: nat)
    requires State(sw, enc, available, len) && sw.lookahead > 0 && !sw.eofile
    requires 2 <= len <= MAX_MATCH && head <= sw.strstart < 2 * WSIZE
    requires Looked(sw.hashBits, sw.window[..], sw.strstart, sw.lookahead, head, len, found, top)
    ensures sw.strstart <= 2 * WSIZE - MIN_LOOKAHEAD && top < 2 * WSIZE
  {
    hide Covers, Pending, TextCoder.Valid, Indexed, Primed, CompareTop, Dull, Best;
  }

  // ---------- flush_block: "it is never too late" ----------

  // The open block is still in the window if and only if it is no longer than
  // what precedes the current position there.
  lemma StillThere(sw: SlidingWindow, enc: TextCoder, pending: bool)
    requires sw.Holds() && Tallied(sw, enc, pending)
    ensures sw.blockStart >= 0 <==> |enc.text| - |enc.flushed| <= sw.strstart - (if pending then 1 else 0)
    ensures sw.base == 0 ==> sw.blockStart >= 0
    ensures |enc.text| - |enc.flushed| + (if pending then 1 else 0) <= MAX_DIST ==> sw.blockStart >= 0
  {
  }

  predicate AllLiterals(ts: seq<Token>)
  {
    forall i :: 0 <= i < |ts| ==> ts[i].Literal?
  }

  lemma {:induction false} LiteralsSize(ts: seq<Token>, out: seq<Byte>)
    requires AllLiterals(ts)
    ensures Resolvable(ts, out) && |Expand(ts, out)| == |out| + |ts|
    decreases |ts|
  {
    if ts != [] {
      LiteralsSize(ts[1..], out + [ts[0].b]);
    }
  }

  // With a literal buffer of at most MAX_DIST + 1 entries, a block of literals can
  // always be stored.
  lemma LiteralsStorable(sw: SlidingWindow, enc: TextCoder)
    requires sw.Holds() && Tallied(sw, enc, false) && enc.Valid() && AllLiterals(enc.Tokens())
    requires 8 * enc.coder.buf.flagBuf.Length - 1 <= MAX_DIST
    ensures sw.blockStart >= 0
  {
    hide BlockCoder.Valid, Produced, Resolvable, Expand, SlidingWindow.Holds;
    CoderParts(enc.coder);
    BufferSize(enc.coder.buf);
    LiteralsSize(enc.Tokens(), enc.flushed);
    StillThere(sw, enc, false);
  }

  // ---------- what the static code makes of a match ----------

  lemma NearDistance(x: nat)
    requires x < 0x8000
    ensures x < TOO_FAR ==> DistExtra(DistCode(x)) <= 10
    ensures DistExtra(DistCode(x)) <= 13
  {
    hide DistCode;
    DistCodeHolds(x);
  }

  lemma ShortLength(x: nat)
    requires x < 256
    ensures x <= 1 ==> LengthCode(x) < 23 && LengthExtra(LengthCode(x)) == 0
    ensures LengthCode(x) < 29 && LengthExtra(LengthCode(x)) <= 5
  {
    hide LengthCode;
    LengthCodeHolds(x);
  }

  lemma FixedDistIs(s: nat)
    requires s < 30
    ensures s < |FixedDist()| && FixedDist()[s] == 5
  {
  }

  // Half of the bits of a token are at most 6.5 for each byte and 2.5 more.
  lemma StaticToken(t: Token)
    requires InReach([t]) && ValidToken(t) && TokenCoded(FixedLit(), FixedDist(), t)
    ensures 2 * |TokenBits(FixedLit(), FixedDist(), t)| <= 13 * Span(t) + 5
  {
    hide FixedDist, CodeBits, ToBits, LengthCode, DistCode, LengthExtra, DistExtra, LengthField, DistField;
    assert InReach([t]) && [t][0] == t;
    if t.Match? {
      ShortLength(t.length - 3);
      NearDistance(t.dist - 1);
      FixedDistIs(DistSym(t));
    }
  }

  lemma {:induction false} StaticTokens(ts: seq<Token>, out: seq<Byte>)
    requires InReach(ts) && ValidTokens(ts) && TokensCoded(FixedLit(), FixedDist(), ts) && Resolvable(ts, out)
    ensures 2 * |TokensBits(FixedLit(), FixedDist(), ts)| <= 13 * (|Expand(ts, out)| - |out|) + 5 * |ts|
    decreases |ts|
  {
    hide FixedLit, FixedDist, TokenCoded, TokenBits;
    if ts != [] {
      assert [ts[0]][0] == ts[0];
      StaticToken(ts[0]);
      match ts[0]
      case Literal(b) => StaticTokens(ts[1..], out + [b]);
      case Match(length, dist) => StaticTokens(ts[1..], Copy(out, dist, length));
    }
  }

  // The fixed codes have a code for every token.
  lemma FixedCoded(ts: seq<Token>)
    requires ValidTokens(ts)
    ensures TokensCoded(FixedLit(), FixedDist(), ts)
  {
    hide FixedDist, LengthCode, DistCode;
    forall i | 0 <= i < |ts|
      ensures ValidToken(ts[i]) && TokenCoded(FixedLit(), FixedDist(), ts[i])
    {
      if ts[i].Match? {
        FixedDistIs(DistSym(ts[i]));
      }
    }
  }

  // Storing a block of `n` bytes pays off, compared with `bits` bits for the
  // other forms.
  predicate StoringPays(n: nat, bits: nat)
  {
    n + 4 <= InBytes(bits)
  }

  // Storing only pays off when there are few long matches.
  lemma StoredIsShort(eof: bool, ts: seq<Token>, out: seq<Byte>)
    requires InReach(ts) && ValidTokens(ts) && TokensCoded(FixedLit(), FixedDist(), ts) && Resolvable(ts, out)
    requires |Expand(ts, out)| >= |out| && StoringPays(|Expand(ts, out)| - |out|, |StaticBlock(eof, ts)|)
    ensures 3 * (|Expand(ts, out)| - |out|) + 30 <= 5 * |ts|
  {
    hide FixedDist, TokensBits, CodeBits, Resolvable, Expand, InReach, ValidTokens, TokensCoded;
    StaticTokens(ts, out);
    assert |CodeBits(FixedLit(), END_BLOCK)| == 7;
  }

  lemma SuffixInReach(all: seq<Token>, ts: seq<Token>)
    requires InReach(all) && Ends(all, ts)
    ensures InReach(ts)
  {
    forall i | 0 <= i < |ts| && ts[i].Match?
      ensures MIN_MATCH <= ts[i].length <= MAX_MATCH && 1 <= ts[i].dist <= MAX_DIST
      ensures ts[i].length == MIN_MATCH ==> ts[i].dist <= TOO_FAR
    {
      assert all[|all| - |ts| + i] == ts[i];
    }
  }

  // The remark in flush_block, with the bound that makes it true: for a literal
  // buffer of at most 19510 entries, as in the two smaller memory models, it is
  // never too late to store a block for which storing pays off, whatever matches
  // the block has.
  lemma NeverTooLate(sw: SlidingWindow, enc: TextCoder, eof: bool)
    requires sw.Holds() && Tallied(sw, enc, false) && enc.Valid() && 8 * enc.coder.buf.flagBuf.Length <= 19510
    requires TokensCoded(FixedLit(), FixedDist(), enc.Tokens())
    requires |enc.text| >= |enc.flushed|
    requires StoringPays(|enc.text| - |enc.flushed|, |StaticBlock(eof, enc.Tokens())|)
    ensures sw.blockStart >= 0
  {
    hide BlockCoder.Valid, Produced, Resolvable, Expand, SlidingWindow.Holds, TokensCoded, StaticBlock, InReach, FixedLit,
         FixedDist,
         ValidTokens, StoringPays, Ends;
    CoderParts(enc.coder);
    BufferSize(enc.coder.buf);
    TokensValid(enc.coder);
    SuffixInReach(enc.all, enc.Tokens());
    StoredIsShort(eof, enc.Tokens(), enc.flushed);
    StillThere(sw, enc, false);
  }
}
