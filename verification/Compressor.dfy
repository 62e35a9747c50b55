/** deflate: lazy matching over the sliding window. */
module Compressor {
  import opened Arith
  import opened Bits
  import opened BitWriter
  import opened Rfc1951
  import opened Tokens
  import opened BlockFormat
  import opened Blocks
  import opened Encoder
  import opened Hash
  import opened Chains
  import opened Window
  import opened Search
  import opened LazyMatch

  // ---------- matches in the input ----------

  // All matches are within the limits.
  ghost predicate InReach(ts: seq<Token>)
  {
    forall i :: 0 <= i < |ts| && ts[i].Match? ==>
      MIN_MATCH <= ts[i].length <= MAX_MATCH && 1 <= ts[i].dist <= MAX_DIST
      && (ts[i].length == MIN_MATCH ==> ts[i].dist <= TOO_FAR)
  }

  lemma {:induction false} CopyIs(data: seq<Byte>, n: nat, d: nat, len: nat)
    requires 1 <= d <= n && n + len <= |data| && forall i :: n <= i < n + len ==> data[i] == data[i - d]
    ensures Copy(data[..n], d, len) == data[..n + len]
    decreases len
  {
    if len > 0 {
      assert data[..n] + [data[..n][n - d]] == data[..n + 1];
      CopyIs(data, n + 1, d, len - 1);
    }
  }

  // ---------- one step ----------

  // Find the longest match for the current string, discarding those not longer
  // than `prevLength`. `top` is the largest index of the window looked at, or 0.
  method FindMatch(sw: SlidingWindow, hashHead: nat, prevLength: nat) returns (len: nat, ghost top: nat)
    requires sw.Sized() && sw.Holds() && sw.lookahead >= 1 && sw.IndexedTo(sw.strstart + 1)
    requires 2 <= prevLength <= MAX_MATCH
    requires hashHead == Latest(sw.hashBits, sw.window[..], sw.strstart, HashAt(sw.hashBits, sw.window[..], sw.strstart))
    modifies sw`matchStart
    ensures sw.Holds()
    ensures 1 <= len <= MAX_MATCH && (len <= sw.lookahead || len == 2) && (len == 1 ==> sw.lookahead == 1)
    ensures len > prevLength ==> len <= sw.lookahead
    ensures len > prevLength ==>
              MatchAt(sw.reader.data, sw.base + sw.strstart, PendingDist(sw.strstart + 1, sw.matchStart), len)
    ensures Looked(sw.hashBits, sw.window[..], sw.strstart, sw.lookahead, hashHead, prevLength, len, top)
  {
    hide Latest, HashAt, Indexed, Agree, NoMatch, Pow2, HashSize, MatchAt, CompareTop, Dull, Best, NoneLonger, Reader.Sums;
    ghost var win, s, end := sw.window[..], sw.strstart, sw.strstart + sw.lookahead;
    assert win[..end] == sw.window[..end];
    len := MIN_MATCH - 1;
    top := 0;
    if hashHead != 0 && prevLength < MAX_LAZY && sw.strstart - hashHead <= MAX_DIST {
      ghost var oldMs := sw.matchStart;
      len, top := sw.LongestMatch(hashHead, prevLength);
      ghost var found, ms := len, sw.matchStart;
      FoundIsBest(sw.hashBits, win, s, sw.lookahead, hashHead, prevLength, found, ms, oldMs);
      if found > 2 && prevLength == 2 {
        NotDull(win, ms, s, found);
      }
      if len > sw.lookahead {
        len := sw.lookahead;
      }
      if len == MIN_MATCH && U32(sw.strstart - sw.matchStart) > TOO_FAR {
        len := len - 1;
      }
      assert len == Clipped(found, ms, s, sw.lookahead);
      if len > prevLength {
        SmallDist(s, ms);
        FoundShorter(win, ms, s, found, len);
        FoundIsMatch(win, sw.reader.data, sw.base, s, end, ms, len);
      }
    } else {
      NothingIsBest(sw.hashBits, win, s, sw.lookahead, hashHead, prevLength);
    }
  }

  // Insert in the dictionary all strings up to the end of a match of `length`
  // bytes that starts just before the current string.
  method InsertMatch(sw: SlidingWindow, length: nat)
    requires sw.Sized() && sw.Holds() && sw.IndexedTo(sw.strstart + 1) && sw.HashedTo(sw.strstart + 1)
    requires MIN_MATCH <= length <= sw.lookahead + 1
    modifies sw`strstart, sw`lookahead, sw`insH, sw.head, sw.prev
    ensures sw.Holds() && sw.IndexedTo(sw.strstart) && sw.HashedTo(sw.strstart)
    ensures sw.strstart == old(sw.strstart) + length - 1 && sw.lookahead == old(sw.lookahead) - (length - 1)
  {
    hide Indexed, Primed, Pow2, HashSize, Latest, HashAt, Reader.Sums;
    ghost var s, l := sw.strstart, sw.lookahead;
    sw.lookahead := sw.lookahead - (length - 1);
    var prevLength := length - 2;
    while true
      invariant sw.Sized() && 1 <= prevLength <= length - 2
      invariant sw.strstart == s + (length - 2 - prevLength) && sw.lookahead == l - (length - 1)
      invariant sw.IndexedTo(sw.strstart + 1) && sw.HashedTo(sw.strstart + 1)
      decreases prevLength
    {
      sw.strstart := sw.strstart + 1;
      var hashHead := sw.InsertString(sw.strstart);
      prevLength := prevLength - 1;
      if prevLength == 0 {
        break;
      }
    }
    sw.strstart := sw.strstart + 1;
  }

  // ---------- tallied text ----------

  ghost predicate Apart(sw: SlidingWindow, enc: TextCoder)
  {
    && sw !in enc.Parts() && sw.window !in enc.Parts() && sw.head !in enc.Parts() && sw.prev !in enc.Parts()
    && sw.reader !in enc.Parts()
  }

  // The tallied text is the input up to position `at`, and the flushed text the
  // input up to `origin`.
  ghost predicate Covers(data: seq<Byte>, at: int, origin: int, text: seq<Byte>, flushed: seq<Byte>, all: seq<Token>)
  {
    && |text| == at && at <= |data| && text == data[..at]
    && |flushed| == origin <= at && flushed == data[..origin]
    && InReach(all)
  }

  // With a match pending, the byte before the current position is not tallied yet.
  ghost predicate Tallied(sw: SlidingWindow, enc: TextCoder, pending: bool)
    reads sw, enc
  {
    && Covers(sw.reader.data, sw.base + sw.strstart - (if pending then 1 else 0), sw.base + sw.blockStart,
              enc.text, enc.flushed, enc.all)
    && (pending ==> sw.strstart >= 1)
  }

  lemma CoversLiteral(data: seq<Byte>, at: int, origin: int, text: seq<Byte>, flushed: seq<Byte>, all: seq<Token>, b: Byte)
    requires Covers(data, at, origin, text, flushed, all) && at < |data| && b == data[at]
    ensures Covers(data, at + 1, origin, text + [b], flushed, all + [Token.Literal(b)])
  {
  }

  lemma CoversMatch(data: seq<Byte>, at: nat, origin: int, text: seq<Byte>, flushed: seq<Byte>, all: seq<Token>,
                    len: nat, d: nat)
    requires Covers(data, at, origin, text, flushed, all) && MatchAt(data, at, d, len) && MIN_MATCH <= len <= MAX_MATCH
    ensures 1 <= d <= |text|
    ensures Covers(data, at + len, origin, Copy(text, d, len), flushed, all + [Token.Match(len, d)])
  {
    hide Copy;
    CopyIs(data, at, d, len);
  }

  lemma CoversFlush(data: seq<Byte>, at: int, origin: int, text: seq<Byte>, flushed: seq<Byte>, all: seq<Token>)
    requires Covers(data, at, origin, text, flushed, all)
    ensures Covers(data, at, at, text, text, all)
  {
  }

  // The part of the block that is still in the window.
  lemma CoversBlock(data: seq<Byte>, win: seq<Byte>, base: nat, end: nat, s: nat, k: int, text: seq<Byte>, flushed: seq<Byte>,
                    all: seq<Token>)
    requires Covers(data, base + s, base + k, text, flushed, all) && k >= 0
    requires s <= end <= |win| && base + end <= |data| && win[..end] == data[base..base + end]
    ensures k <= s && text == flushed + win[k..s]
  {
    hide InReach;
    SliceOfSlice(win, 0, end, k, s);
    SliceOfSlice(data, base, base + end, k, s);
    assert win[0..end] == win[..end];
    assert data[..base + s] == data[..base + k] + data[base + k..base + s];
  }

  lemma SliceOfSlice(d: seq<Byte>, a: nat, b: nat, k: nat, m: nat)
    requires a <= b <= |d| && k <= m <= b - a
    ensures d[a..b][k..m] == d[a + k..a + m]
  {
    var x, y := d[a..b][k..m], d[a + k..a + m];
    forall i | 0 <= i < m - k
      ensures x[i] == y[i]
    {
      assert d[a..b][k + i] == d[a + k + i];
    }
  }

  // However far the window has moved on, the start of the block stays within
  // 32 bits.
  lemma BlockStartFits(sw: SlidingWindow, enc: TextCoder, pending: bool)
    requires Apart(sw, enc) && enc.Valid() && Tallied(sw, enc, pending)
    ensures -0x8000_0000 <= sw.blockStart <= sw.strstart
  {
    hide BlockCoder.Valid, Produced, Resolvable, Expand;
    CoderParts(enc.coder);
    BufferSize(enc.coder.buf);
    TokensValid(enc.coder);
    ExpandSize(enc.coder.buf.tokens, enc.flushed);
  }

  lemma TokensValid(c: BlockCoder)
    requires c.Valid()
    ensures ValidTokens(c.buf.tokens)
  {
  }

  // Flush the tallied text, which ends at strstart.
  method FlushTallied(sw: SlidingWindow, enc: TextCoder)
    requires Apart(sw, enc) && sw.Holds() && sw.strstart < 2 * WSIZE && Tallied(sw, enc, false)
    requires enc.Valid() && enc.Roomy()
    modifies sw`blockStart, enc.Parts()
    ensures sw.Holds() && enc.Valid() && enc.HasRoom() && Tallied(sw, enc, false)
    ensures enc.text == enc.flushed == old(enc.text) && enc.all == old(enc.all) && enc.Tokens() == []
  {
    hide Covers, TextCoder.Valid, Reader.Sums;
    TalliedBlock(sw, enc);
    ghost var data, at := sw.reader.data, sw.base + sw.strstart;
    CoversFlush(data, at, sw.base + sw.blockStart, enc.text, enc.flushed, enc.all);
    enc.Flush(sw.window, sw.blockStart, sw.strstart);
    sw.blockStart := sw.strstart;
  }

  lemma TalliedBlock(sw: SlidingWindow, enc: TextCoder)
    requires sw.Holds() && sw.strstart < 2 * WSIZE && Tallied(sw, enc, false)
    ensures enc.BlockText(sw.window, sw.blockStart, sw.strstart)
  {
    hide Covers, Reader.Sums;
    if sw.blockStart >= 0 {
      var end := sw.strstart + sw.lookahead;
      assert sw.window[..][..end] == sw.window[..end];
      CoversBlock(sw.reader.data, sw.window[..], sw.base, end, sw.strstart, sw.blockStart, enc.text, enc.flushed, enc.all);
      assert sw.window[..][sw.blockStart..sw.strstart] == sw.window[sw.blockStart..sw.strstart];
    }
  }

  // The token `t` is tallied, and `flush` tells whether its block ends there.
  ghost predicate Tallies(enc: TextCoder, all0: seq<Token>, tokens0: seq<Token>, t: Token, inLength: nat, flush: bool)
    reads enc, enc.coder.buf
  {
    && enc.all == all0 + [t] && enc.Tokens() == tokens0 + [t]
    && enc.Stops(enc.Tokens(), inLength, flush)
  }

  // The token `t` is out: either it belongs to the open block, or the block
  // with it is flushed.
  ghost predicate Emitted(enc: TextCoder, all0: seq<Token>, tokens0: seq<Token>, flushed0: seq<Byte>, t: Token, inLength: nat)
    reads enc, enc.coder.buf
  {
    && enc.all == all0 + [t]
    && ((enc.Tokens() == tokens0 + [t] && enc.flushed == flushed0 && enc.Stops(tokens0 + [t], inLength, false)) ||
        (enc.Tokens() == [] && enc.flushed == enc.text && enc.Stops(tokens0 + [t], inLength, true)))
  }

  // Tally the match of `length` bytes for the string before the current one.
  method TallyMatch(sw: SlidingWindow, enc: TextCoder, length: nat, matchStart: nat) returns (flush: bool)
    requires Apart(sw, enc) && enc.Valid() && enc.HasRoom() && Tallied(sw, enc, true)
    requires MIN_MATCH <= length <= MAX_MATCH
    requires MatchAt(sw.reader.data, sw.base + sw.strstart - 1, PendingDist(sw.strstart, matchStart), length)
    modifies enc.Parts()
    ensures enc.Valid() && (!flush ==> enc.HasRoom())
    ensures Covers(sw.reader.data, sw.base + sw.strstart - 1 + length, sw.base + sw.blockStart,
                   enc.text, enc.flushed, enc.all)
    ensures Tallies(enc, old(enc.all), old(enc.Tokens()), Token.Match(length, PendingDist(sw.strstart, matchStart)),
                    U32(sw.strstart - sw.blockStart), flush)
    ensures enc.flushed == old(enc.flushed)
  {
    hide Covers, MatchAt, PendingDist, TextCoder.Valid, Copy, TextCoder.Stops, Reader.Sums;
    ghost var data, at := sw.reader.data, sw.base + sw.strstart - 1;
    var dist := PendingDist(sw.strstart, matchStart);
    CoversMatch(data, at, sw.base + sw.blockStart, enc.text, enc.flushed, enc.all, length, dist);
    MatchRange(data, at, dist, length);
    flush := enc.Match(length, dist, U32(sw.strstart - sw.blockStart));
  }

  // Output the pending match of `length` bytes.
  method EmitMatch(sw: SlidingWindow, enc: TextCoder, length: nat, matchStart: nat)
    requires Apart(sw, enc) && sw.Sized() && sw.Holds() && sw.IndexedTo(sw.strstart + 1) && sw.HashedTo(sw.strstart + 1)
    requires enc.Valid() && enc.HasRoom() && enc.Roomy() && Tallied(sw, enc, true)
    requires MIN_MATCH <= length <= sw.lookahead + 1 && length <= MAX_MATCH
    requires MatchAt(sw.reader.data, sw.base + sw.strstart - 1, PendingDist(sw.strstart, matchStart), length)
    requires sw.eofile || sw.lookahead >= MIN_LOOKAHEAD
    modifies sw`strstart, sw`lookahead, sw`insH, sw`blockStart, sw.head, sw.prev, enc.Parts()
    ensures sw.Holds() && sw.IndexedTo(sw.strstart) && sw.HashedTo(sw.strstart)
    ensures sw.strstart == old(sw.strstart) + length - 1 && sw.lookahead == old(sw.lookahead) - (length - 1)
    ensures enc.Valid() && enc.HasRoom() && Tallied(sw, enc, false)
    ensures Emitted(enc, old(enc.all), old(enc.Tokens()), old(enc.flushed),
                    Token.Match(length, PendingDist(old(sw.strstart), matchStart)), U32(old(sw.strstart - sw.blockStart)))
  {
    hide Covers, MatchAt, PendingDist, TextCoder.Valid, Indexed, Primed, Pow2, HashSize, U32, TextCoder.Stops, Reader.Sums;
    var flush := TallyMatch(sw, enc, length, matchStart);
    InsertMatch(sw, length);
    if flush {
      FlushTallied(sw, enc);
    }
  }

  lemma MatchRange(data: seq<Byte>, at: nat, d: nat, len: nat)
    requires MatchAt(data, at, d, len)
    ensures 1 <= d <= 0x8000
  {
  }

  // Tally the byte before the current position.
  method TallyLiteral(sw: SlidingWindow, enc: TextCoder) returns (flush: bool)
    requires Apart(sw, enc) && sw.Holds() && enc.Valid() && enc.HasRoom() && Tallied(sw, enc, true)
    modifies enc.Parts()
    ensures enc.Valid() && (!flush ==> enc.HasRoom()) && Tallied(sw, enc, false)
    ensures sw.strstart <= sw.window.Length
    ensures Tallies(enc, old(enc.all), old(enc.Tokens()), Token.Literal(sw.window[sw.strstart - 1]),
                    U32(sw.strstart - sw.blockStart), flush)
    ensures enc.flushed == old(enc.flushed)
  {
    hide Covers, TextCoder.Valid, SlidingWindow.Holds, TextCoder.Stops, U32, Reader.Sums;
    ghost var data, at := sw.reader.data, sw.base + sw.strstart - 1;
    LastByte(sw);
    CoversLiteral(data, at, sw.base + sw.blockStart, enc.text, enc.flushed, enc.all, sw.window[sw.strstart - 1]);
    flush := enc.Literal(sw.window[sw.strstart - 1], U32(sw.strstart - sw.blockStart));
  }

  // Output the byte before the current position.
  method EmitLiteral(sw: SlidingWindow, enc: TextCoder)
    requires Apart(sw, enc) && sw.Holds() && sw.strstart < 2 * WSIZE
    requires enc.Valid() && enc.HasRoom() && enc.Roomy() && Tallied(sw, enc, true)
    modifies sw`blockStart, enc.Parts()
    ensures sw.Holds() && enc.Valid() && enc.HasRoom() && Tallied(sw, enc, false)
    ensures sw.strstart <= sw.window.Length
    ensures Emitted(enc, old(enc.all), old(enc.Tokens()), old(enc.flushed),
                    Token.Literal(sw.window[sw.strstart - 1]), U32(sw.strstart - old(sw.blockStart)))
  {
    hide Covers, TextCoder.Valid, TextCoder.Stops, U32, Reader.Sums;
    var flush := TallyLiteral(sw, enc);
    if flush {
      FlushTallied(sw, enc);
    }
  }

  lemma LastByte(sw: SlidingWindow)
    requires sw.Holds() && 1 <= sw.strstart
    ensures sw.strstart <= sw.window.Length && sw.base + sw.strstart - 1 < |sw.reader.data|
    ensures sw.window[sw.strstart - 1] == sw.reader.data[sw.base + sw.strstart - 1]
  {
    var end, i := sw.strstart + sw.lookahead, sw.strstart - 1;
    assert sw.window[..end][i] == sw.reader.data[sw.base..sw.base + end][i];
  }

  // ---------- the main loop ----------

  ghost predicate Outputs(enc: TextCoder, all0: seq<Token>, tokens0: seq<Token>, flushed0: seq<Byte>, t: Option<Token>,
                          inLength: nat)
    reads enc, enc.coder.buf
  {
    match t
    case None => enc.all == all0 && enc.Tokens() == tokens0 && enc.flushed == flushed0
    case Some(t) => Emitted(enc, all0, tokens0, flushed0, t, inLength)
  }

  // A match of length `len` pending for the string before position `at` of the
  // input, or none.
  ghost predicate Pending(data: seq<Byte>, at: nat, s: nat, m: nat, lookahead: nat, available: bool, len: nat)
  {
    && len <= MAX_MATCH && (len >= 2 || lookahead == 0)
    && (len >= MIN_MATCH ==> available && len <= lookahead + 1 && at >= 1 && MatchAt(data, at - 1, PendingDist(s, m), len))
  }

  // What holds whenever a string is about to be processed.
  ghost predicate State(sw: SlidingWindow, enc: TextCoder, available: bool, len: nat)
    reads sw, sw.window, sw.head, sw.prev, sw.reader, enc.Parts()
  {
    && Apart(sw, enc) && sw.Sized() && sw.Holds() && sw.IndexedTo(sw.strstart)
    && (sw.lookahead > 0 ==> sw.HashedTo(sw.strstart)) && sw.Filled()
    && enc.Valid() && enc.HasRoom() && enc.Roomy() && Tallied(sw, enc, available)
    && Pending(sw.reader.data, sw.base + sw.strstart, sw.strstart, sw.matchStart, sw.lookahead, available, len)
  }

  // Go on to the next string.
  method Advance(sw: SlidingWindow)
    requires sw.Holds() && sw.lookahead >= 1
    modifies sw`strstart, sw`lookahead
    ensures sw.Holds() && sw.strstart == old(sw.strstart) + 1 && sw.lookahead == old(sw.lookahead) - 1
  {
    sw.strstart := sw.strstart + 1;
    sw.lookahead := sw.lookahead - 1;
  }

  // Insert the current string in the dictionary and look for a match. `head` is
  // the last earlier string with the same hash, and `top` the largest index of the
  // window looked at in the search.
  method LookUp(sw: SlidingWindow, prevLength: nat) returns (len: nat, ghost head: nat, ghost top: nat)
    requires sw.Sized() && sw.Holds() && sw.lookahead >= 1 && sw.IndexedTo(sw.strstart) && sw.HashedTo(sw.strstart)
    requires 2 <= prevLength <= MAX_MATCH
    modifies sw`matchStart, sw`insH, sw.head, sw.prev
    ensures sw.Holds() && sw.IndexedTo(sw.strstart + 1) && sw.HashedTo(sw.strstart + 1)
    ensures 1 <= len <= MAX_MATCH && (len <= sw.lookahead || len == 2) && (len == 1 ==> sw.lookahead == 1)
    ensures len > prevLength ==> len <= sw.lookahead
    ensures len > prevLength ==>
              MatchAt(sw.reader.data, sw.base + sw.strstart, PendingDist(sw.strstart + 1, sw.matchStart), len)
    ensures head == Latest(sw.hashBits, sw.window[..], sw.strstart, HashAt(sw.hashBits, sw.window[..], sw.strstart))
    ensures Looked(sw.hashBits, sw.window[..], sw.strstart, sw.lookahead, head, prevLength, len, top)
  {
    hide MatchAt, PendingDist, Indexed, Primed, Pow2, HashSize, Latest, HashAt, SlidingWindow.Holds, Looked, Reader.Sums;
    HoldsRange(sw);
    var hashHead := sw.InsertString(sw.strstart);
    head := hashHead;
    len, top := FindMatch(sw, hashHead, prevLength);
  }

  // Output a literal if there is one waiting, and leave the current byte for
  // the next round.
  method PassOn(sw: SlidingWindow, enc: TextCoder, available: bool)
    requires Apart(sw, enc) && sw.Holds() && sw.lookahead >= 1
    requires enc.Valid() && enc.HasRoom() && enc.Roomy() && Tallied(sw, enc, available)
    modifies sw`strstart, sw`lookahead, sw`blockStart, enc.Parts()
    ensures sw.Holds() && sw.strstart == old(sw.strstart) + 1 && sw.lookahead == old(sw.lookahead) - 1
    ensures enc.Valid() && enc.HasRoom() && Tallied(sw, enc, true)
    ensures Outputs(enc, old(enc.all), old(enc.Tokens()), old(enc.flushed),
                    if available then Some(Token.Literal(ByteBefore(sw.window[..], old(sw.strstart)))) else None,
                    U32(old(sw.strstart - sw.blockStart)))
  {
    hide Covers, TextCoder.Valid, SlidingWindow.Holds, TextCoder.Stops, U32, Reader.Sums;
    if available {
      HoldsRange(sw);
      EmitLiteral(sw, enc);
    }
    Advance(sw);
  }

  // Output the previous match if the current one, of length `len`, is not
  // better; otherwise at most a single literal.
  method Decide(sw: SlidingWindow, enc: TextCoder, available: bool, prevLength: nat, prevMatch: nat, len: nat)
    returns (available': bool, len': nat)
    requires Apart(sw, enc) && sw.Sized() && sw.Holds() && sw.lookahead >= 1
    requires sw.IndexedTo(sw.strstart + 1) && sw.HashedTo(sw.strstart + 1)
    requires sw.eofile || sw.lookahead >= MIN_LOOKAHEAD
    requires enc.Valid() && enc.HasRoom() && enc.Roomy() && Tallied(sw, enc, available)
    requires Pending(sw.reader.data, sw.base + sw.strstart, sw.strstart, prevMatch, sw.lookahead, available, prevLength)
    requires 1 <= len <= MAX_MATCH && (len <= sw.lookahead || len == 2) && (len == 1 ==> sw.lookahead == 1)
    requires len > prevLength ==> len <= sw.lookahead
    requires len > prevLength ==>
               MatchAt(sw.reader.data, sw.base + sw.strstart, PendingDist(sw.strstart + 1, sw.matchStart), len)
    modifies sw`strstart, sw`lookahead, sw`insH, sw`blockStart, sw.head, sw.prev, enc.Parts()
    ensures sw.Holds() && sw.IndexedTo(sw.strstart) && sw.HashedTo(sw.strstart)
    ensures !sw.eofile ==> sw.lookahead >= 2
    ensures enc.Valid() && enc.HasRoom() && Tallied(sw, enc, available')
    ensures Pending(sw.reader.data, sw.base + sw.strstart, sw.strstart, sw.matchStart, sw.lookahead, available', len')
    ensures sw.lookahead < old(sw.lookahead)
    ensures Outputs(enc, old(enc.all), old(enc.Tokens()), old(enc.flushed),
                    Lazy(available, prevLength, PendingDist(old(sw.strstart), prevMatch), len,
                         ByteBefore(sw.window[..], old(sw.strstart))),
                    U32(old(sw.strstart - sw.blockStart)))
    ensures Moves(available, prevLength, len, old(sw.strstart), available', len', sw.strstart)
  {
    hide Covers, MatchAt, PendingDist, TextCoder.Valid, Indexed, Primed, Pow2, HashSize, SlidingWindow.Holds,
         TextCoder.Stops, U32, Reader.Sums;
    len' := len;
    if prevLength >= MIN_MATCH && len <= prevLength {
      EmitMatch(sw, enc, prevLength, prevMatch);
      available', len' := false, MIN_MATCH - 1;
    } else {
      PassOn(sw, enc, available);
      available' := true;
    }
  }

  // One round of the main loop, before the window is filled up again. `found` is
  // the length of the match found for the current string.
  method Process(sw: SlidingWindow, enc: TextCoder, available: bool, len: nat)
    returns (available': bool, len': nat, ghost found: nat, ghost d: nat, ghost head: nat, ghost top: nat)
    requires State(sw, enc, available, len) && sw.lookahead > 0
    modifies sw`strstart, sw`lookahead, sw`matchStart, sw`insH, sw`blockStart, sw.head, sw.prev, enc.Parts()
    ensures sw.Holds() && sw.IndexedTo(sw.strstart) && sw.HashedTo(sw.strstart)
    ensures !sw.eofile ==> sw.lookahead >= 2
    ensures enc.Valid() && enc.HasRoom() && Tallied(sw, enc, available')
    ensures Pending(sw.reader.data, sw.base + sw.strstart, sw.strstart, sw.matchStart, sw.lookahead, available', len')
    ensures sw.lookahead < old(sw.lookahead)
    ensures old(sw.strstart) < 2 * WSIZE && 2 <= len <= MAX_MATCH
    ensures head == Latest(sw.hashBits, sw.window[..], old(sw.strstart), HashAt(sw.hashBits, sw.window[..], old(sw.strstart)))
    ensures Looked(sw.hashBits, sw.window[..], old(sw.strstart), old(sw.lookahead), head, len, found, top)
    ensures Outputs(enc, old(enc.all), old(enc.Tokens()), old(enc.flushed),
                    Lazy(available, len, old(PendingDist(sw.strstart, sw.matchStart)), found,
                         ByteBefore(sw.window[..], old(sw.strstart))),
                    U32(old(sw.strstart - sw.blockStart)))
    ensures Moves(available, len, found, old(sw.strstart), available', len', sw.strstart)
    ensures found > len ==> found <= old(sw.lookahead) && MatchAt(sw.reader.data, old(sw.base + sw.strstart), d, found)
  {
    hide Covers, Pending, TextCoder.Valid, Indexed, Primed, Pow2, HashSize, SlidingWindow.Holds, MatchAt, PendingDist, Looked,
         Outputs, Lazy, Moves, ByteBefore, U32, Latest, HashAt, Reader.Sums;
    var prevLength, prevMatch := len, sw.matchStart;
    PendingLength(sw.reader.data, sw.base + sw.strstart, sw.strstart, sw.matchStart, sw.lookahead, available, len);
    HoldsRange(sw);
    var now;
    now, head, top := LookUp(sw, prevLength);
    found, d := now, PendingDist(sw.strstart + 1, sw.matchStart);
    available', len' := Decide(sw, enc, available, prevLength, prevMatch, now);
  }

  lemma PendingLength(data: seq<Byte>, at: nat, s: nat, m: nat, lookahead: nat, available: bool, len: nat)
    requires Pending(data, at, s, m, lookahead, available, len) && lookahead > 0
    ensures 2 <= len <= MAX_MATCH
  {
  }

  lemma HoldsRange(sw: SlidingWindow)
    requires sw.Holds()
    ensures sw.strstart + sw.lookahead <= 2 * WSIZE
  {
  }

  // The window is filled up without moving in the input.
  lemma PendingMoves(data: seq<Byte>, at: nat, s0: nat, b0: nat, m0: nat, k0: int, s: nat, b: nat, m: nat, k: int,
                     l0: nat, l: nat, available: bool, len: nat)
    requires SamePlace(s0, b0, m0, k0, s, b, m, k) && l0 <= l && (len < 2 ==> l == l0)
    requires Pending(data, at, s0, m0, l0, available, len)
    ensures Pending(data, at, s, m, l, available, len)
    ensures b + s == b0 + s0 && b + k == b0 + k0 && (s0 >= 1 ==> s >= 1)
  {
    hide MatchAt, PendingDist;
  }

  lemma HoldsSum(sw: SlidingWindow)
    requires sw.Holds()
    ensures sw.base + sw.strstart + sw.lookahead == sw.reader.pos <= |sw.reader.data|
  {
  }

  // Make sure that there is enough lookahead for the next round.
  method Refill(sw: SlidingWindow, enc: TextCoder, ghost available: bool, ghost len: nat)
    requires Apart(sw, enc) && sw.Sized() && sw.Holds() && sw.IndexedTo(sw.strstart) && sw.HashedTo(sw.strstart)
    requires if sw.eofile then sw.Filled() else sw.lookahead >= 2
    requires enc.Valid() && enc.HasRoom() && enc.Roomy() && Tallied(sw, enc, available)
    requires Pending(sw.reader.data, sw.base + sw.strstart, sw.strstart, sw.matchStart, sw.lookahead, available, len)
    modifies sw, sw.window, sw.head, sw.prev, sw.reader`calls, sw.reader`pos, sw.reader`isize, sw.reader`crc, sw.reader`failed
    ensures State(sw, enc, available, len)
    ensures sw.base + sw.strstart == old(sw.base + sw.strstart)
    ensures sw.ToppedUp(old(sw.base), old(sw.strstart), old(sw.lookahead), old(sw.eofile), old(sw.window[..]),
                        old(sw.reader.pos) == |sw.reader.data|)
    ensures sw.reader.pos >= old(sw.reader.pos) && (old(sw.eofile) ==> sw.eofile && sw.reader.pos == old(sw.reader.pos))
  {
    hide Covers, Pending, TextCoder.Valid, Indexed, Primed, Pow2, HashSize, SlidingWindow.Holds, SamePlace,
         SlidingWindow.ToppedUp, Reader.Sums;
    ghost var s, b, m, k, l, at := sw.strstart, sw.base, sw.matchStart, sw.blockStart, sw.lookahead, sw.base + sw.strstart;
    ShortPending(sw.reader.data, at, s, m, l, available, len);
    ghost var e, win, end := sw.eofile, sw.window[..], sw.reader.pos == |sw.reader.data|;
    HoldsSum(sw);
    sw.FillUp();
    EndStays(sw, b, s, l, e, win, end);
    HoldsSum(sw);
    PendingMoves(sw.reader.data, at, s, b, m, k, sw.strstart, sw.base, sw.matchStart, sw.blockStart, l, sw.lookahead,
                 available, len);
  }

  lemma EndStays(sw: SlidingWindow, base: nat, strstart: nat, lookahead: nat, eofile: bool, win: seq<Byte>, atEnd: bool)
    requires sw.ToppedUp(base, strstart, lookahead, eofile, win, atEnd)
    ensures eofile ==> sw.eofile && sw.lookahead == lookahead
  {
  }

  // One round of the main loop; see Process for what it outputs and Refill for
  // what becomes of the window.
  method Round(sw: SlidingWindow, enc: TextCoder, available: bool, len: nat)
    returns (available': bool, len': nat, ghost found: nat, ghost d: nat, ghost head: nat, ghost top: nat)
    requires State(sw, enc, available, len) && sw.lookahead > 0
    modifies sw, sw.window, sw.head, sw.prev, sw.reader`calls, sw.reader`pos, sw.reader`isize, sw.reader`crc,
             sw.reader`failed, enc.Parts()
    ensures State(sw, enc, available', len')
    ensures sw.base + sw.strstart > old(sw.base + sw.strstart)
    ensures old(sw.strstart) < 2 * WSIZE && 2 <= len <= MAX_MATCH
    ensures head == old(Latest(sw.hashBits, sw.window[..], sw.strstart, HashAt(sw.hashBits, sw.window[..], sw.strstart)))
    ensures Looked(sw.hashBits, old(sw.window[..]), old(sw.strstart), old(sw.lookahead), head, len, found, top)
    ensures Outputs(enc, old(enc.all), old(enc.Tokens()), old(enc.flushed),
                    Lazy(available, len, old(PendingDist(sw.strstart, sw.matchStart)), found,
                         ByteBefore(old(sw.window[..]), old(sw.strstart))),
                    U32(old(sw.strstart - sw.blockStart)))
    ensures Moves(available, len, found, old(sw.base + sw.strstart), available', len', sw.base + sw.strstart)
    ensures old(sw.reader.pos) == |sw.reader.data| ==>
              sw.ToppedUp(old(sw.base), sw.base + sw.strstart - old(sw.base), |sw.reader.data| - (sw.base + sw.strstart),
                          old(sw.eofile), old(sw.window[..]), true)
    ensures found > len ==> found <= old(sw.lookahead) && MatchAt(sw.reader.data, old(sw.base + sw.strstart), d, found)
    ensures sw.reader.pos >= old(sw.reader.pos) && (old(sw.eofile) ==> sw.reader.pos == old(sw.reader.pos))
  {
    hide Covers, Pending, TextCoder.Valid, Indexed, Primed, Pow2, HashSize, SlidingWindow.Holds, Tallied, Looked, Outputs, Lazy,
         ByteBefore, U32, Latest, HashAt, PendingDist, SlidingWindow.ToppedUp, MatchAt, Reader.Sums;
    HoldsSum(sw);
    HoldsRange(sw);
    available', len', found, d, head, top := Process(sw, enc, available, len);
    HoldsSum(sw);
    Refill(sw, enc, available', len');
  }

  lemma ShortPending(data: seq<Byte>, at: nat, s: nat, m: nat, lookahead: nat, available: bool, len: nat)
    requires Pending(data, at, s, m, lookahead, available, len)
    ensures len < 2 ==> lookahead == 0
  {
  }

  // The outcome: the tokens, and the bits that were sent for them, stand for
  // exactly the text.
  ghost predicate Compressed(text: seq<Byte>, all: seq<Token>, sent: seq<bool>, start: nat)
  {
    && ValidTokens(all) && InReach(all) && Resolvable(all, []) && Expand(all, []) == text
    && Finished(sent, start, text)
  }

  // Every token so far is the right one at its place.
  ghost predicate Thrift(sw: SlidingWindow, enc: TextCoder, available: bool, len: nat)
    reads sw, sw.reader, enc
  {
    Watched(sw.hashBits, sw.reader.data, sw.reader.pos, enc.all, available, sw.base + sw.strstart, len)
  }

  lemma OutputsAll(enc: TextCoder, all0: seq<Token>, tokens0: seq<Token>, flushed0: seq<Byte>, t: Option<Token>, inLength: nat)
    requires Outputs(enc, all0, tokens0, flushed0, t, inLength)
    ensures enc.all == if t.Some? then all0 + [t.value] else all0
  {
    hide TextCoder.Stops;
  }

  // The window as the search sees it.
  lemma StateFacts(sw: SlidingWindow, enc: TextCoder, available: bool, len: nat)
    requires State(sw, enc, available, len) && sw.lookahead > 0
    ensures sw.strstart + MAX_MATCH < sw.window.Length && (sw.base > 0 ==> sw.strstart >= MAX_DIST)
    ensures sw.strstart + sw.lookahead <= sw.window.Length &&
        sw.base + sw.strstart + sw.lookahead == sw.reader.pos <= |sw.reader.data|
    ensures sw.window[..][..sw.strstart + sw.lookahead] == sw.reader.data[sw.base..sw.reader.pos]
    ensures sw.eofile || sw.lookahead >= MIN_LOOKAHEAD
    ensures len >= MIN_MATCH ==> available
  {
    hide TextCoder.Valid, Indexed, Primed, Pow2, HashSize, Covers, MatchAt, Reader.Sums;
    FrontOf(sw.window, sw.strstart + sw.lookahead);
  }

  lemma LookedBest(bits: nat, win: seq<Byte>, s: nat, lookahead: nat, head: nat, prevLength: nat, len: nat, top: nat)
    requires s + MAX_MATCH < |win| && 2 <= prevLength <= MAX_MATCH && head <= s
    requires Looked(bits, win, s, lookahead, head, prevLength, len, top)
    ensures Best(bits, win, s, lookahead, head, prevLength, len)
  {
    hide Best, CompareTop, Dull;
  }

  // A round, and why its token is due.
  method ThriftyRound(sw: SlidingWindow, enc: TextCoder, available: bool, len: nat) returns (available': bool, len': nat)
    requires State(sw, enc, available, len) && sw.lookahead > 0 && Thrift(sw, enc, available, len)
    modifies sw, sw.window, sw.head, sw.prev, sw.reader`calls, sw.reader`pos, sw.reader`isize, sw.reader`crc,
             sw.reader`failed, enc.Parts()
    ensures State(sw, enc, available', len') && Thrift(sw, enc, available', len')
    ensures sw.base + sw.strstart > old(sw.base + sw.strstart)
  {
    hide State, Looked, Outputs, Lazy, ByteBefore, U32, Latest, HashAt, PendingDist, SlidingWindow.ToppedUp, MatchAt, Moves,
         Watched, Best, Outdoes;
    ghost var bits, data, win, base, s, l := sw.hashBits, sw.reader.data, sw.window[..], sw.base, sw.strstart, sw.lookahead;
    ghost var n, all0, tokens0, flushed0, dist, inLength := sw.reader.pos, enc.all, enc.Tokens(), enc.flushed,
                                                            PendingDist(sw.strstart, sw.matchStart),
                                                                U32(sw.strstart - sw.blockStart);
    StateFacts(sw, enc, available, len);
    ghost var found, d, head, top;
    available', len', found, d, head, top := Round(sw, enc, available, len);
    LookedBest(bits, win, s, l, head, len, found, top);
    BestOutdoes(bits, win, data, base, s, l, head, len, found, n);
    ghost var b := ByteBefore(win, s);
    OutputsAll(enc, all0, tokens0, flushed0, Lazy(available, len, dist, found, b), inLength);
    StateRead(sw, enc, available', len');
    RoundWatched(bits, data, n, sw.reader.pos, all0, available, base + s, len, found, d, dist, b, enc.all, available',
                 sw.base + sw.strstart, len');
  }

  lemma StateRead(sw: SlidingWindow, enc: TextCoder, available: bool, len: nat)
    requires State(sw, enc, available, len)
    ensures sw.reader.pos <= |sw.reader.data|
  {
    hide TextCoder.Valid, Indexed, Primed, Pow2, HashSize, Covers, MatchAt, Reader.Sums;
  }

  // Compress the whole input. All that was read is encoded, however the reads
  // were cut into pieces; reading stops at the end of the file or at an error.
  // Every match is as long as any that is available at its place, and a literal
  // stands only where none is, or a longer one starts just behind it.
  method Deflate(sw: SlidingWindow, enc: TextCoder) returns (r: nat)
    requires Apart(sw, enc) && sw.Sized() && sw.Holds() && sw.IndexedTo(0) && sw.Filled()
    requires sw.lookahead > 0 ==> sw.HashedTo(0)
    requires sw.strstart == 0 && sw.blockStart == 0 && sw.base == 0
    requires enc.Valid() && enc.HasRoom() && enc.Roomy() && enc.text == [] && enc.flushed == [] && enc.all == []
    modifies sw, sw.window, sw.head, sw.prev, sw.reader`calls, sw.reader`pos, sw.reader`isize, sw.reader`crc,
             sw.reader`failed, enc.Parts()
    ensures sw.reader.Valid() && (sw.reader.failed || sw.reader.pos == |sw.reader.data|)
    ensures enc.coder.w.Valid() && enc.coder.w.biValid == 0 && enc.coder.w.Sent() == BytesBits(enc.coder.w.Bytes())
    ensures enc.text == sw.reader.Text()
    ensures Compressed(enc.text, enc.all, enc.coder.w.Sent(), enc.start)
    ensures Thrifty(sw.hashBits, sw.reader.data, sw.reader.pos, enc.all)
    ensures enc.before <= enc.coder.w.Sent() && SizeReturned(r, |enc.coder.w.Sent()| - enc.start)
  {
    hide TextCoder.Valid, Indexed, Primed, Pow2, HashSize, SlidingWindow.Holds, Finished, Resolvable, Expand, SizeReturned,
         Writer.Valid, Writer.Sent, BytesBits, Writer.Bytes, Covers, Pending, Reader.Sums, Watched, Thrifty, ByteBefore;
    var available, len: nat := false, MIN_MATCH - 1;
    StartState(sw, enc);
    assert Thrift(sw, enc, available, len) by { NothingWatched(sw.hashBits, sw.reader.data, sw.reader.pos); }
    while sw.lookahead != 0
      invariant State(sw, enc, available, len) && Thrift(sw, enc, available, len)
      decreases |sw.reader.data| - (sw.base + sw.strstart)
    {
      available, len := ThriftyRound(sw, enc, available, len);
      HoldsSum(sw);
    }
    HoldsSum(sw);
    ghost var all0, n := enc.all, sw.base + sw.strstart;
    r := Conclude(sw, enc, available);
    if available {
      LastWatched(sw.hashBits, sw.reader.data, sw.reader.pos, all0, n, len, ByteBefore(sw.window[..], sw.strstart));
    } else {
      WatchedThrifty(sw.hashBits, sw.reader.data, sw.reader.pos, all0, available, n, len);
      assert all0 + [] == all0;
    }
  }

  lemma StartState(sw: SlidingWindow, enc: TextCoder)
    requires Apart(sw, enc) && sw.Sized() && sw.Holds() && sw.IndexedTo(0) && sw.Filled()
    requires sw.lookahead > 0 ==> sw.HashedTo(0)
    requires sw.strstart == 0 && sw.blockStart == 0 && sw.base == 0
    requires enc.Valid() && enc.HasRoom() && enc.Roomy() && enc.text == [] && enc.flushed == [] && enc.all == []
    ensures State(sw, enc, false, MIN_MATCH - 1)
  {
    hide TextCoder.Valid, Indexed, Primed, Pow2, HashSize, SlidingWindow.Holds;
  }

  lemma NothingWatched(bits: nat, data: seq<Byte>, n: nat)
    ensures Watched(bits, data, n, [], false, 0, MIN_MATCH - 1)
  {
  }

  lemma WatchedThrifty(bits: nat, data: seq<Byte>, n: nat, ts: seq<Token>, available: bool, at: nat, len: nat)
    requires Watched(bits, data, n, ts, available, at, len)
    ensures Thrifty(bits, data, n, ts)
  {
    hide Thrifty;
  }

  // The last literal and the last block.
  method Conclude(sw: SlidingWindow, enc: TextCoder, available: bool) returns (r: nat)
    requires Apart(sw, enc) && sw.Holds() && sw.Filled() && sw.lookahead == 0
    requires enc.Valid() && enc.HasRoom() && enc.Roomy() && Tallied(sw, enc, available)
    modifies enc.Parts()
    ensures sw.reader.Valid() && (sw.reader.failed || sw.reader.pos == |sw.reader.data|)
    ensures enc.coder.w.Valid() && enc.coder.w.biValid == 0 && enc.coder.w.Sent() == BytesBits(enc.coder.w.Bytes())
    ensures enc.text == sw.reader.Text()
    ensures enc.all == old(enc.all) + if available then [Token.Literal(ByteBefore(sw.window[..], sw.strstart))] else []
    ensures Compressed(enc.text, enc.all, enc.coder.w.Sent(), enc.start)
    ensures enc.before <= enc.coder.w.Sent() && SizeReturned(r, |enc.coder.w.Sent()| - enc.start)
  {
    hide TextCoder.Valid, SlidingWindow.Holds, Finished, Resolvable, Expand, SizeReturned, Writer.Valid, Writer.Sent, BytesBits,
         Writer.Bytes, Covers, ValidTokens, InReach, Reader.Sums;
    if available {
      var flush := TallyLiteral(sw, enc);
    }
    AtEnd(sw, enc);
    TalliedBlock(sw, enc);
    r := enc.Finish(sw.window, sw.blockStart, sw.strstart);
  }

  lemma AtEnd(sw: SlidingWindow, enc: TextCoder)
    requires sw.Holds() && sw.Filled() && sw.lookahead == 0 && Tallied(sw, enc, false)
    ensures sw.strstart < 2 * WSIZE && sw.reader.Valid() && sw.eofile
    ensures enc.text == sw.reader.Text() && InReach(enc.all)
  {
  }
}
