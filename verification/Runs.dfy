/** Runs of the compressor that reach what two remarks in it rule out. The input
    is such that no string repeats within reach, so that every byte becomes a
    literal and the run can be followed step by step. */
module Runs {
  import opened Arith
  import opened Bits
  import opened BitWriter
  import opened Rfc1951
  import opened Tokens
  import opened Tally
  import opened BlockFormat
  import opened Blocks
  import opened Encoder
  import opened Hash
  import opened Chains
  import opened Window
  import opened Search
  import opened LazyMatch
  import opened Compressor
  import opened Limits
  import opened LateBlock
  import opened Gzip

  // ---------- an input without repetitions ----------

  // The pair of bytes at `s` does not occur before it within MAX_DIST bytes.
  predicate NewPair(data: seq<Byte>, s: nat)
    requires s + 2 <= |data|
  {
    forall q :: 0 <= q < s && s - q <= MAX_DIST ==> data[q] != data[s] || data[q + 1] != data[s + 1]
  }

  lemma SameResidue(a: nat, b: nat)
    requires a % 128 == b % 128 && b <= a
    ensures (a - b) % 128 == 0
  {
  }

  lemma FastCounter(q: nat, s: nat)
    requires q < s && q % 2 == 0 && s % 2 == 0 && Pattern(q) == Pattern(s)
    ensures (s - q) % 256 == 0
  {
    SameResidue(s / 2, q / 2);
  }

  lemma SlowCounter(q: nat, s: nat)
    requires q < s && q % 2 == 1 && s % 2 == 1 && Pattern(q) == Pattern(s) && (s - q) % 256 == 0
    ensures (s - q) % 0x8000 == 0
  {
    SameResidue(s / 256, q / 256);
    WholeRounds(q, s, (s - q) / 256);
  }

  lemma WholeRounds(q: nat, s: nat, k: nat)
    requires s == q + 256 * k && (s / 256 - q / 256) % 128 == 0
    ensures (s - q) % 0x8000 == 0
  {
    assert s / 256 == q / 256 + k;
    assert s - q == 0x8000 * (k / 128);
  }

  lemma Parity(q: nat, s: nat)
    requires Pattern(q) == Pattern(s)
    ensures q % 2 == s % 2
  {
  }

  // Equal pairs are a multiple of WSIZE apart.
  lemma PatternPair(q: nat, s: nat)
    requires q < s && Pattern(q) == Pattern(s) && Pattern(q + 1) == Pattern(s + 1)
    ensures (s - q) % 0x8000 == 0
  {
    hide Pattern;
    Parity(q, s);
    if q % 2 == 0 {
      FastCounter(q, s);
      SlowCounter(q + 1, s + 1);
    } else {
      FastCounter(q + 1, s + 1);
      SlowCounter(q, s);
    }
  }

  // The first `n` bytes follow the pattern.
  predicate Patterned(data: seq<Byte>, n: nat)
  {
    n <= |data| && forall i :: 0 <= i < n ==> data[i] == Pattern(i)
  }

  lemma PatternNew(data: seq<Byte>, n: nat, s: nat)
    requires Patterned(data, n) && s + 2 <= n
    ensures NewPair(data, s)
  {
    hide Pattern;
    forall q | 0 <= q < s && s - q <= MAX_DIST
      ensures data[q] != data[s] || data[q + 1] != data[s + 1]
    {
      if Pattern(q) == Pattern(s) && Pattern(q + 1) == Pattern(s + 1) {
        PatternPair(q, s);
      }
    }
  }

  // A new pair has no match.
  lemma NewIsDull(win: seq<Byte>, data: seq<Byte>, base: nat, s: nat, end: nat)
    requires s + 2 <= end <= |win| && s + 3 <= |win| && base + end <= |data| && win[..end] == data[base..base + end]
    requires NewPair(data, base + s)
    ensures Dull(win, s)
  {
    forall q | 0 < q < s && s - q <= MAX_DIST
      ensures !Agree(win, q, s, 3)
    {
      SameBytes(win, data, base, end, q);
      SameBytes(win, data, base, end, s);
      FirstTwo(win, q, s);
    }
  }

  lemma FirstTwo(win: seq<Byte>, q: nat, s: nat)
    requires q <= s && s + 3 <= |win|
    ensures Agree(win, q, s, 3) ==> win[q] == win[s] && win[q + 1] == win[s + 1]
  {
    if Agree(win, q, s, 3) {
      assert win[q] == win[q + (s - q)] && win[q + 1] == win[q + 1 + (s - q)];
    }
  }

  lemma SameBytes(win: seq<Byte>, data: seq<Byte>, base: nat, end: nat, i: nat)
    requires i + 2 <= end <= |win| && base + end <= |data| && win[..end] == data[base..base + end]
    ensures win[i] == data[base + i] && win[i + 1] == data[base + i + 1]
  {
    assert win[..end][i] == data[base..base + end][i];
    assert win[..end][i + 1] == data[base..base + end][i + 1];
  }

  // ---------- the start ----------

  // Everything is read at once.
  method Start(data: seq<Byte>, memory: seq<Byte>, outBufSize: nat, litBufSize: nat, inBufSize: nat, distBufSize: nat,
               hashBits: nat)
    returns (sw: SlidingWindow, enc: TextCoder)
    requires Sizes(outBufSize, litBufSize, inBufSize, distBufSize, hashBits)
    requires |memory| == 2 * WSIZE + MAX_MATCH && MIN_LOOKAHEAD <= |data| <= 2 * WSIZE
    ensures State(sw, enc, false, 2) && sw.reader.data == data && sw.reader.pos == |data|
    ensures sw.base == 0 && sw.strstart == 0 && sw.lookahead == |data| && !sw.eofile
    ensures sw.window[|data|..] == memory[|data|..]
    ensures enc.Tokens() == [] && enc.flushed == [] && enc.coder.buf.flagBuf.Length == litBufSize / 8
    ensures fresh(sw) && fresh(sw.window) && fresh(sw.head) && fresh(sw.prev) && fresh(sw.reader) && fresh(enc.Parts())
  {
    hide BytesBits, TextCoder.Valid, SlidingWindow.Holds, Indexed, Primed, Writer.Valid, Writer.Sent, HashSize, Pow2,
         Writer.Bytes, TextCoder.Parts, State, Reader.Sums;
    var reader := new Reader(data, []);
    var w := new Writer(outBufSize);
    WriteHeader(w, 0);
    sw := new SlidingWindow(hashBits, reader, memory);
    assert reader.Planned(2 * WSIZE) == |data|;
    sw.LmInit();
    HoldsSum(sw);
    enc := StartEncoder(w, litBufSize, inBufSize, distBufSize);
    StartState(sw, enc);
  }

  // ---------- one literal after the other ----------

  // All bytes so far were literals, in full blocks except the last.
  ghost predicate OnlyLiterals(enc: TextCoder)
    reads enc, enc.coder.buf
  {
    enc.coder.buf.flagBuf.Length >= 1 && AllLiterals(enc.Tokens()) && |enc.flushed| % (8 * enc.coder.buf.flagBuf.Length - 1) == 0
  }

  lemma OpenBlock(sw: SlidingWindow, enc: TextCoder, available: bool, len: nat)
    requires State(sw, enc, available, len) && AllLiterals(enc.Tokens())
    ensures |enc.text| == |enc.flushed| + |enc.Tokens()| && MatchCount(enc.Tokens()) == 0
    ensures |enc.text| == sw.base + sw.strstart - (if available then 1 else 0)
    ensures |enc.flushed| == sw.base + sw.blockStart
    ensures |enc.Tokens()| + 1 < 8 * enc.coder.buf.flagBuf.Length <= 0x8000
  {
    hide SlidingWindow.Holds, Indexed, Primed, Pow2, HashSize, BlockCoder.Valid, Resolvable, Expand, Produced, MatchCount,
         Pending;
    LiteralsSize(enc.Tokens(), enc.flushed);
    NoMatches(enc.Tokens());
    CoderParts(enc.coder);
    FullIs(enc.coder.buf);
    BufferSize(enc.coder.buf);
  }

  lemma {:induction false} NoMatches(ts: seq<Token>)
    requires AllLiterals(ts)
    ensures MatchCount(ts) == 0
  {
    if ts != [] {
      NoMatches(ts[..|ts| - 1]);
    }
  }

  // What one more literal does to the open block, which has `n` tokens.
  lemma LiteralOut(enc: TextCoder, all0: seq<Token>, tokens0: seq<Token>, flushed0: seq<Byte>, t: Option<Token>, inLength: nat)
    requires Outputs(enc, all0, tokens0, flushed0, t, inLength) && (t.Some? ==> t.value.Literal? && inLength == |tokens0| + 1)
    requires AllLiterals(tokens0) && enc.Roomy()
    ensures AllLiterals(enc.Tokens())
    ensures enc.flushed == flushed0 || (t.Some? && |tokens0| + 1 == 8 * enc.coder.buf.flagBuf.Length - 1 &&
        enc.flushed == enc.text)
  {
    hide MatchCount;
    if t.Some? {
      NoMatches(tokens0 + [t.value]);
    }
  }

  // One round for a string without a match.
  method LiteralRound(sw: SlidingWindow, enc: TextCoder, available: bool) returns (available': bool)
    requires State(sw, enc, available, 2) && OnlyLiterals(enc) && sw.reader.pos == |sw.reader.data| && sw.lookahead >= 2
    requires NewPair(sw.reader.data, sw.base + sw.strstart)
    modifies sw, sw.window, sw.head, sw.prev, sw.reader`calls, sw.reader`pos, sw.reader`isize, sw.reader`crc,
             sw.reader`failed, enc.Parts()
    ensures State(sw, enc, available', 2) && OnlyLiterals(enc) && available'
    ensures sw.base + sw.strstart == old(sw.base + sw.strstart) + 1
    ensures sw.ToppedUp(old(sw.base), sw.base + sw.strstart - old(sw.base), |sw.reader.data| - (sw.base + sw.strstart),
                        old(sw.eofile), old(sw.window[..]), true)
  {
    hide State, Looked, Outputs, Lazy, ByteBefore, U32, Latest, HashAt, PendingDist, SlidingWindow.ToppedUp, NewPair, Dull, Moves;
    ghost var win, s, l, n := sw.window[..], sw.strstart, sw.lookahead, sw.base + sw.strstart;
    ghost var all0, tokens0, flushed0 := enc.all, enc.Tokens(), enc.flushed;
    ghost var dist, inLength := PendingDist(sw.strstart, sw.matchStart), U32(sw.strstart - sw.blockStart);
    OpenBlock(sw, enc, available, 2);
    StateDull(sw, enc, available);
    var len;
    ghost var found, d, head, top;
    available', len, found, d, head, top := Round(sw, enc, available, 2);
    NothingFound(sw.hashBits, win, s, l, head, found, top, available, dist, ByteBefore(win, s), n, available', len,
        sw.base + sw.strstart);
    LiteralOut(enc, all0, tokens0, flushed0, Lazy(available, 2, dist, found, ByteBefore(win, s)), inLength);
    OpenBlock(sw, enc, available', 2);
    OneMoreBlock(|flushed0|, 8 * enc.coder.buf.flagBuf.Length - 1);
  }

  lemma OneMoreBlock(n: nat, m: nat)
    requires m > 0 && n % m == 0
    ensures (n + m) % m == 0
  {
    ModShift(n, 1, m);
  }

  // The state without the window, when there is at least one more byte.
  lemma StateDull(sw: SlidingWindow, enc: TextCoder, available: bool)
    requires State(sw, enc, available, 2) && sw.lookahead >= 2 && sw.reader.pos == |sw.reader.data|
    requires NewPair(sw.reader.data, sw.base + sw.strstart) && AllLiterals(enc.Tokens())
    ensures sw.strstart + MAX_MATCH < sw.window.Length && Dull(sw.window[..], sw.strstart) && enc.Roomy()
    ensures available ==> U32(sw.strstart - sw.blockStart) == |enc.Tokens()| + 1
  {
    hide State, NewPair, Dull, U32;
    StateFacts(sw, enc, available, 2);
    NewIsDull(sw.window[..], sw.reader.data, sw.base, sw.strstart, sw.strstart + sw.lookahead);
    StateRoomy(sw, enc, available);
    OpenBlock(sw, enc, available, 2);
    BlockLengthFits(sw.strstart, sw.blockStart, |enc.Tokens()|);
  }

  lemma StateRoomy(sw: SlidingWindow, enc: TextCoder, available: bool)
    requires State(sw, enc, available, 2)
    ensures enc.Roomy()
  {
    hide TextCoder.Valid, Indexed, Primed, Pow2, HashSize, Covers, SlidingWindow.Holds;
  }

  lemma BlockLengthFits(s: nat, k: int, n: nat)
    ensures s - k == n + 1 && n < 0x8000 ==> U32(s - k) == n + 1
  {
  }

  // A search that finds nothing leads to a literal.
  lemma NothingFound(bits: nat, win: seq<Byte>, s: nat, lookahead: nat, head: nat, found: nat, top: nat, available: bool,
      dist: nat, b: Byte,
                     n: nat, available': bool, len: nat, n': nat)
    requires s + MAX_MATCH < |win| && head <= s && Dull(win, s) && lookahead >= 2
    requires Looked(bits, win, s, lookahead, head, 2, found, top) && Moves(available, 2, found, n, available', len, n')
    ensures available' && len == 2 && n' == n + 1
    ensures Lazy(available, 2, dist, found, b) == if available then Some(Token.Literal(b)) else None
  {
    hide Dull, CompareTop, Best;
  }

  // ---------- the whole run ----------

  // Where the end of an input of `size` bytes, read at once, is noticed.
  function EndNoticed(size: nat): nat
    requires size >= MIN_LOOKAHEAD
  {
    size - (MIN_LOOKAHEAD - 1)
  }

  // The window at position `n` of the input: it slides at most once, when the end
  // is noticed.
  ghost predicate InRun(sw: SlidingWindow, n: nat, win: seq<Byte>)
    reads sw, sw.window
  {
    var size := |sw.reader.data|;
    && MIN_LOOKAHEAD <= size && n <= size && sw.base + sw.strstart == n && sw.lookahead == size - n
    && (sw.eofile <==> n >= EndNoticed(size))
    && sw.base == (if sw.eofile && EndNoticed(size) >= WSIZE + MAX_DIST then WSIZE else 0)
    && (sw.base == 0 ==> sw.window[..] == win)
  }

  lemma InRunStep(sw: SlidingWindow, n: nat, win: seq<Byte>, base0: nat, eofile0: bool, win0: seq<Byte>)
    requires var size := |sw.reader.data|;
             && MIN_LOOKAHEAD <= size && n < size && sw.base + sw.strstart == n + 1
             && (eofile0 <==> n >= EndNoticed(size))
             && base0 == (if eofile0 && EndNoticed(size) >= WSIZE + MAX_DIST then WSIZE else 0)
             && (base0 == 0 ==> win0 == win)
             && sw.ToppedUp(base0, n + 1 - base0, size - (n + 1), eofile0, win0, true)
    requires base0 <= n + 1
    ensures InRun(sw, n + 1, win)
  {
  }

  // Every string up to `n` is new: nothing but literals.
  method LiteralRun(sw: SlidingWindow, enc: TextCoder, n: nat) returns (available: bool)
    requires State(sw, enc, false, 2) && OnlyLiterals(enc) && InRun(sw, 0, sw.window[..])
    requires sw.reader.pos == |sw.reader.data| && n + 1 <= |sw.reader.data|
    requires forall s :: 0 <= s < n ==> NewPair(sw.reader.data, s)
    modifies sw, sw.window, sw.head, sw.prev, sw.reader`calls, sw.reader`pos, sw.reader`isize, sw.reader`crc,
             sw.reader`failed, enc.Parts()
    ensures State(sw, enc, available, 2) && OnlyLiterals(enc) && InRun(sw, n, old(sw.window[..])) && (available <==> n >= 1)
    ensures sw.reader.pos == |sw.reader.data|
  {
    hide State, OnlyLiterals, NewPair, InRun, SlidingWindow.ToppedUp;
    available := false;
    var i := 0;
    while i < n
      invariant 0 <= i <= n && (available <==> i >= 1)
      invariant State(sw, enc, available, 2) && OnlyLiterals(enc) && InRun(sw, i, old(sw.window[..]))
      invariant sw.reader.pos == |sw.reader.data|
    {
      RunPlace(sw, i, old(sw.window[..]));
      ghost var base, eofile, win := sw.base, sw.eofile, sw.window[..];
      available := LiteralRound(sw, enc, available);
      InRunStep(sw, i, old(sw.window[..]), base, eofile, win);
      i := i + 1;
      RunPlace(sw, i, old(sw.window[..]));
      StateSum(sw, enc, available);
    }
  }

  lemma RunPlace(sw: SlidingWindow, n: nat, win: seq<Byte>)
    requires InRun(sw, n, win)
    ensures var size := |sw.reader.data|;
            && MIN_LOOKAHEAD <= size && n <= size && sw.base + sw.strstart == n && sw.lookahead == size - n
            && (sw.eofile <==> n >= EndNoticed(size))
            && sw.base == (if sw.eofile && EndNoticed(size) >= WSIZE + MAX_DIST then WSIZE else 0)
            && (sw.base == 0 ==> sw.window[..] == win)
  {
  }

  lemma StateSum(sw: SlidingWindow, enc: TextCoder, available: bool)
    requires State(sw, enc, available, 2)
    ensures sw.base + sw.strstart + sw.lookahead == sw.reader.pos
  {
    hide TextCoder.Valid, Indexed, Primed, Pow2, HashSize, Covers;
  }

  // ---------- looking behind the window ----------

  const LATE: nat := 65281

  // Zeros follow the pattern, up to two bytes before the end of the window.
  function ZeroTail(): (r: seq<Byte>)
    ensures |r| == 2 * WSIZE - 2
    ensures forall i :: 0 <= i < LATE - 1 ==> r[i] == Pattern(i)
    ensures forall i :: LATE - 1 <= i < |r| ==> r[i] == 0
  {
    seq(2 * WSIZE - 2, i requires 0 <= i => if i < LATE - 1 then Pattern(i) else 0)
  }

  lemma ZeroPair(q: nat)
    ensures Pattern(q) != 0 || Pattern(q + 1) != 0
  {
  }

  lemma LateNew(s: nat)
    requires s < LATE
    ensures NewPair(ZeroTail(), s)
  {
    hide Pattern, ZeroTail;
    var data := ZeroTail();
    assert data[LATE - 1] == Pattern(LATE - 1) by { FirstZero(); }
    if s + 2 <= LATE {
      PatternNew(data, LATE, s);
    } else {
      forall q | 0 <= q < s && s - q <= MAX_DIST
        ensures data[q] != data[s] || data[q + 1] != data[s + 1]
      {
        ZeroPair(q);
      }
    }
  }

  lemma FirstZero()
    ensures Pattern(LATE - 1) == 0
  {
  }

  lemma ZerosAgree(win: seq<Byte>)
    requires |win| == 2 * WSIZE + MAX_MATCH && forall i :: LATE - 1 <= i < 2 * WSIZE ==> win[i] == 0
    ensures Agree(win, LATE - 1, LATE, 2 * WSIZE - LATE)
  {
  }

  // The string at LATE is compared with the one before it, beyond the window.
  lemma LateTop(bits: nat, win: seq<Byte>)
    requires |win| == 2 * WSIZE + MAX_MATCH && forall i :: LATE - 1 <= i < 2 * WSIZE ==> win[i] == 0
    ensures var head := Latest(bits, win, LATE, HashAt(bits, win, LATE));
            Searched(LATE, head, 2) && head < LATE && CompareTop(win, head, LATE, 2) >= 2 * WSIZE
  {
    hide Agree, CompareTop, Hash3;
    ZerosAgree(win);
    TakenTop(win, LATE - 1, LATE, 2, 2 * WSIZE - LATE);
  }

  lemma LateWindow(win: seq<Byte>, data: seq<Byte>, memory: seq<Byte>)
    requires data == ZeroTail() && |memory| == |win| == 2 * WSIZE + MAX_MATCH && win[..|data|] == data
    requires win[|data|..] == memory[|data|..] && memory[2 * WSIZE - 2] == 0 && memory[2 * WSIZE - 1] == 0
    ensures forall i :: LATE - 1 <= i < 2 * WSIZE ==> win[i] == 0
  {
    hide ZeroTail;
    forall i | LATE - 1 <= i < 2 * WSIZE
      ensures win[i] == 0
    {
      if i < |data| {
        assert win[i] == win[..|data|][i];
      } else {
        assert win[i] == win[|data|..][i - |data|] == memory[|data|..][i - |data|];
      }
    }
  }

  // The assertion in longest_match fails: near the end of the window the end of
  // the input has been noticed, so the window does not slide any more.
  method ReachEnd(memory: seq<Byte>, outBufSize: nat, litBufSize: nat, inBufSize: nat, distBufSize: nat, hashBits: nat)
    returns (sw: SlidingWindow, enc: TextCoder, available: bool)
    requires Sizes(outBufSize, litBufSize, inBufSize, distBufSize, hashBits)
    requires |memory| == 2 * WSIZE + MAX_MATCH && memory[2 * WSIZE - 2] == 0 && memory[2 * WSIZE - 1] == 0
    ensures State(sw, enc, available, 2) && sw.lookahead > 0 && sw.eofile
    ensures sw.strstart == LATE > 2 * WSIZE - MIN_LOOKAHEAD
    ensures forall i :: LATE - 1 <= i < 2 * WSIZE ==> sw.window[i] == 0
    ensures fresh(sw) && fresh(sw.window) && fresh(sw.head) && fresh(sw.prev) && fresh(sw.reader) && fresh(enc.Parts())
  {
    hide State, ZeroTail, HashSize, Pow2, NewPair;
    sw, enc := Start(ZeroTail(), memory, outBufSize, litBufSize, inBufSize, distBufSize, hashBits);
    WindowStart(sw, enc);
    LateWindow(sw.window[..], sw.reader.data, memory);
    ghost var win := sw.window[..];
    forall s | 0 <= s < LATE
      ensures NewPair(sw.reader.data, s)
    {
      LateNew(s);
    }
    available := LiteralRun(sw, enc, LATE);
    assert sw.window[..] == win;
  }

  // The bytes that were read, at the start.
  lemma WindowStart(sw: SlidingWindow, enc: TextCoder)
    requires State(sw, enc, false, 2) && sw.base == 0 && sw.strstart == 0 && sw.lookahead == |sw.reader.data|
    ensures sw.Sized() && |sw.reader.data| <= sw.window.Length && sw.window[..][..|sw.reader.data|] == sw.reader.data
  {
    hide TextCoder.Valid, Indexed, Primed, Pow2, HashSize, Covers;
    var n := |sw.reader.data|;
    assert sw.window[..][..n] == sw.window[..n] && sw.reader.data[0..n] == sw.reader.data;
  }

  // In the next round, longest_match looks at bytes behind the window.
  method LookBehind(memory: seq<Byte>, outBufSize: nat, litBufSize: nat, inBufSize: nat, distBufSize: nat, hashBits: nat)
    returns (sw: SlidingWindow, enc: TextCoder, ghost top: nat)
    requires Sizes(outBufSize, litBufSize, inBufSize, distBufSize, hashBits)
    requires |memory| == 2 * WSIZE + MAX_MATCH && memory[2 * WSIZE - 2] == 0 && memory[2 * WSIZE - 1] == 0
    ensures top >= 2 * WSIZE
  {
    hide State, Outputs, Lazy, SlidingWindow.ToppedUp, Moves, Latest, HashAt, CompareTop, Searched, Dull, Best;
    var available, len;
    ghost var found, d, head;
    sw, enc, available := ReachEnd(memory, outBufSize, litBufSize, inBufSize, distBufSize, hashBits);
    WindowSized(sw, enc, available);
    LateTop(sw.hashBits, sw.window[..]);
    available, len, found, d, head, top := Round(sw, enc, available, 2);
  }

  lemma WindowSized(sw: SlidingWindow, enc: TextCoder, available: bool)
    requires State(sw, enc, available, 2)
    ensures sw.Sized()
  {
    hide TextCoder.Valid, Indexed, Primed, Pow2, HashSize, Covers;
  }

  // ---------- too late to store ----------

  function FullData(): (r: seq<Byte>)
    ensures |r| == 2 * WSIZE && Patterned(r, |r|)
  {
    seq(2 * WSIZE, i requires 0 <= i => Pattern(i))
  }

  lemma SecondBlock(n: nat, flushed: nat)
    requires flushed % 32767 == 0 && flushed <= n < flushed + 32767 && 32767 <= n < 65534
    ensures flushed == 32767
  {
  }

  lemma {:induction false} LiteralBytes(ts: seq<Token>, out: seq<Byte>, i: nat)
    requires AllLiterals(ts) && Resolvable(ts, out) && i < |ts|
    ensures |out| + i < |Expand(ts, out)| && Expand(ts, out)[|out| + i] == ts[i].b && Expand(ts, out)[..|out|] == out
    decreases |ts|
  {
    LiteralsSize(ts, out);
    var out' := out + [ts[0].b];
    if |ts| == 1 {
      assert ts[1..] == [];
    } else {
      LiteralBytes(ts[1..], out', if i == 0 then 0 else i - 1);
    }
    assert out'[..|out|] == out;
  }

  // The tokens of the open block are the bytes of the input.
  lemma OpenTokens(sw: SlidingWindow, enc: TextCoder, available: bool, i: nat)
    requires State(sw, enc, available, 2) && AllLiterals(enc.Tokens()) && i < |enc.Tokens()|
    ensures |enc.flushed| + i < |sw.reader.data| && enc.Tokens()[i] == Literal(sw.reader.data[|enc.flushed| + i])
  {
    hide SlidingWindow.Holds, Indexed, Primed, Pow2, HashSize, BlockCoder.Valid, Resolvable, Expand, Produced, MatchCount,
         Pending;
    LiteralBytes(enc.Tokens(), enc.flushed, i);
  }

  // With a literal buffer of 0x8000 entries, the block that follows the first full
  // one has started before the window when it is about to be full, and all of it
  // is literals.
  method ReachLateBlock(memory: seq<Byte>, outBufSize: nat, inBufSize: nat, distBufSize: nat, hashBits: nat)
    returns (sw: SlidingWindow, enc: TextCoder, available: bool)
    requires Sizes(outBufSize, 0x8000, inBufSize, distBufSize, hashBits) && |memory| == 2 * WSIZE + MAX_MATCH
    ensures State(sw, enc, available, 2) && sw.lookahead == 2 && OnlyLiterals(enc) && available
    ensures sw.reader.data == FullData() && sw.reader.pos == |sw.reader.data| && sw.base + sw.strstart == 2 * WSIZE - 2
    ensures sw.blockStart == -1 && |enc.Tokens()| == 0x8000 - 2 > MAX_DIST && |enc.flushed| == 32767
    ensures enc.Tokens() == LateTokens()[..0x8000 - 2]
    ensures fresh(sw) && fresh(sw.window) && fresh(sw.head) && fresh(sw.prev) && fresh(sw.reader) && fresh(enc.Parts())
    ensures enc.coder.buf.flagBuf.Length == 0x1000
  {
    hide State, FullData, HashSize, Pow2, NewPair, Pattern, Patterned, LateTokens;
    sw, enc := Start(FullData(), memory, outBufSize, 0x8000, inBufSize, distBufSize, hashBits);
    forall s | 0 <= s < 2 * WSIZE - 2
      ensures NewPair(sw.reader.data, s)
    {
      PatternNew(sw.reader.data, 2 * WSIZE, s);
    }
    available := LiteralRun(sw, enc, 2 * WSIZE - 2);
    OpenBlock(sw, enc, available, 2);
    SecondBlock(|enc.text|, |enc.flushed|);
    forall i | 0 <= i < 0x8000 - 2
      ensures enc.Tokens()[i] == LateTokens()[i]
    {
      OpenTokens(sw, enc, available, i);
      PatternedAt(sw.reader.data, FIRST + i);
    }
  }

  lemma PatternedAt(data: seq<Byte>, i: nat)
    requires Patterned(data, |data|) && i < |data|
    ensures data[i] == Pattern(i)
  {
  }

  // In the next round that block is flushed, although it cannot be stored any
  // more; LateBlock.LatePays says that storing it would have paid off.
  method FlushTooLate(memory: seq<Byte>, outBufSize: nat, inBufSize: nat, distBufSize: nat, hashBits: nat)
    returns (sw: SlidingWindow, enc: TextCoder)
    requires Sizes(outBufSize, 0x8000, inBufSize, distBufSize, hashBits) && |memory| == 2 * WSIZE + MAX_MATCH
    ensures enc.Tokens() == [] && |enc.flushed| == 32767 + 32767
  {
    hide State, FullData, Sizes, NewPair, Pattern, Patterned, SlidingWindow.ToppedUp;
    var available;
    sw, enc, available := ReachLateBlock(memory, outBufSize, inBufSize, distBufSize, hashBits);
    PatternNew(sw.reader.data, 2 * WSIZE, 2 * WSIZE - 2);
    available := LiteralRound(sw, enc, available);
    OpenBlock(sw, enc, available, 2);
    AfterBlock(|enc.text|, |enc.flushed|);
  }

  lemma AfterBlock(n: nat, flushed: nat)
    requires flushed % 32767 == 0 && flushed <= n < flushed + 32767 && n == 65534
    ensures flushed == 65534
  {
  }
}
