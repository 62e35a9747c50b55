/** longest_match, INSERT_STRING and fill_window on the compressor's window. */
module Search {
  import opened Arith
  import opened Bits
  import opened Hash
  import opened Chains
  import opened Window

  // How far back a match for the string at `s` may start.
  function Limit(s: nat): nat
  {
    if s > MAX_DIST then s - MAX_DIST else 0
  }

  // The search that starts at `head` may come to `q`. The limit itself is too far,
  // except for the first candidate.
  predicate Reached(s: nat, head: nat, q: nat)
  {
    0 < q < s && s - q <= MAX_DIST && (s - q < MAX_DIST || q == head)
  }

  // The result of longest_match: the nearest of the longest matches that were
  // found, starting at `ms`, or none longer than `prevLength`.
  ghost predicate Found(win: seq<Byte>, s: nat, head: nat, prevLength: nat, len: nat, ms: nat, oldMs: nat)
    requires s + MAX_MATCH < |win|
  {
    && prevLength <= len <= MAX_MATCH
    && (len > prevLength ==>
          Reached(s, head, ms) && Agree(win, ms, s, len) && NoMatch(win, ms, s, len))
    && (len == prevLength ==> ms == oldMs)
  }

  // A position in the middle of the search.
  ghost predicate Searching(bits: nat, win: seq<Byte>, s: nat, head: nat, prevLength: nat, best: nat, ms: nat, oldMs: nat,
      cur: nat)
    requires s + MAX_MATCH < |win|
  {
    && 2 <= prevLength <= best < MAX_MATCH
    && Reached(s, head, cur) && cur <= head && HashAt(bits, win, cur) == HashAt(bits, win, s)
    && Found(win, s, head, prevLength, best, ms, oldMs)
    && NoneLeft(bits, win, cur, s, best + 1)
  }

  lemma SearchStart(bits: nat, win: seq<Byte>, s: nat, prevLength: nat, ms: nat, cur: nat)
    requires s + MAX_MATCH < |win| && 2 <= prevLength < MAX_MATCH && 0 < cur < s && s - cur <= MAX_DIST
    requires cur == Latest(bits, win, s, HashAt(bits, win, s))
    ensures Searching(bits, win, s, cur, prevLength, prevLength, ms, ms, cur)
  {
    hide HashAt, Latest, Agree;
    LatestIs(bits, win, s, HashAt(bits, win, s));
  }

  // Bookkeeping for one candidate of measured length `len`.
  lemma SearchTaken(bits: nat, win: seq<Byte>, s: nat, head: nat, prevLength: nat, best: nat, ms: nat, oldMs: nat, cur: nat,
                    len: nat)
    requires s + MAX_MATCH < |win| && Searching(bits, win, s, head, prevLength, best, ms, oldMs, cur)
    requires best < len <= MAX_MATCH && Agree(win, cur, s, len)
    ensures Found(win, s, head, prevLength, len, cur, oldMs)
    ensures len < MAX_MATCH ==> Searching(bits, win, s, head, prevLength, len, cur, oldMs, cur)
  {
    hide HashAt, Agree, NoMatch, NoneLeft;
    NoneLeftMono(bits, win, cur, s, best + 1, len);
    NoneAtAll(bits, win, cur, cur, s, len);
    if len < MAX_MATCH {
      NoneLeftMono(bits, win, cur, s, best + 1, len + 1);
    }
  }

  lemma SearchNext(bits: nat, win: seq<Byte>, s: nat, head: nat, prevLength: nat, best: nat, ms: nat, oldMs: nat, cur: nat,
                   next: nat)
    requires s + MAX_MATCH < |win| && Searching(bits, win, s, head, prevLength, best, ms, oldMs, cur)
    requires !Agree(win, cur, s, best + 1) && next == Latest(bits, win, cur, HashAt(bits, win, cur))
    ensures next > Limit(s) ==> Searching(bits, win, s, head, prevLength, best, ms, oldMs, next) && next < cur
    ensures next < head && NoneLeft(bits, win, next, s, best + 1)
  {
    hide HashAt, Agree, NoMatch, NoneLeft, Latest;
    NoneBetween(bits, win, cur, next, s, best + 1);
    LatestBelow(bits, win, cur, HashAt(bits, win, cur));
  }

  lemma LatestBelow(bits: nat, win: seq<Byte>, n: nat, h: nat)
    requires 0 < n && n + 1 < |win|
    ensures Latest(bits, win, n, h) < n
  {
    hide Latest;
  }

  lemma FollowLink(bits: nat, head: seq<nat>, prev: seq<nat>, win: seq<Byte>, n: nat, p: nat)
    requires Indexed(bits, head, prev, win, n) && Linked(p, n)
    ensures |prev| == WSIZE && p + 2 < |win| && prev[p % WSIZE] == Latest(bits, win, p, HashAt(bits, win, p))
  {
    hide HashAt, Latest;
  }

  // ---------- how long a search may get ----------

  // Number of strings from `p` up to, not including, `s` with the hash of `s`.
  function SameHash(bits: nat, win: seq<Byte>, p: nat, s: nat): nat
    requires s + 2 < |win|
    decreases s - p
  {
    if p >= s then 0
    else (if HashAt(bits, win, p) == HashAt(bits, win, s) then 1 else 0) + SameHash(bits, win, p + 1, s)
  }

  lemma {:induction false} SameHashSkip(bits: nat, win: seq<Byte>, p: nat, q: nat, s: nat)
    requires p <= q <= s && s + 2 < |win|
    requires forall i :: p <= i < q ==> HashAt(bits, win, i) != HashAt(bits, win, s)
    ensures SameHash(bits, win, p, s) == SameHash(bits, win, q, s)
    decreases q - p
  {
    hide HashAt;
    if p < q {
      SameHashSkip(bits, win, p + 1, q, s);
    }
  }

  lemma {:induction false} SameHashMono(bits: nat, win: seq<Byte>, p: nat, q: nat, s: nat)
    requires p <= q && s + 2 < |win|
    ensures SameHash(bits, win, q, s) <= SameHash(bits, win, p, s)
    decreases q - p
  {
    hide HashAt;
    if p < q {
      SameHashMono(bits, win, p + 1, q, s);
    }
  }

  // A chain link leads to exactly one more candidate.
  lemma OneMore(bits: nat, win: seq<Byte>, cur: nat, s: nat)
    requires cur <= s && s + 2 < |win|
    requires HashAt(bits, win, cur) == HashAt(bits, win, s)
    ensures var next := Latest(bits, win, cur, HashAt(bits, win, cur));
            next > 0 ==> SameHash(bits, win, next, s) == SameHash(bits, win, cur, s) + 1
  {
    hide HashAt, Latest;
    LatestIs(bits, win, cur, HashAt(bits, win, cur));
    var next := Latest(bits, win, cur, HashAt(bits, win, cur));
    if next > 0 {
      SameHashSkip(bits, win, next + 1, cur, s);
    }
  }

  lemma NoneYet(bits: nat, win: seq<Byte>, s: nat)
    requires s + 2 < |win|
    ensures SameHash(bits, win, s, s) == 0
  {
  }

  // The longest chain that is searched to its end.
  function ChainLimit(prevLength: nat): nat
  {
    if prevLength >= GOOD_MATCH then MAX_CHAIN / 4 else MAX_CHAIN
  }

  // The search comes to `q`: it is in reach, and among so many strings with the
  // same hash, counted from `s`, as the limit allows.
  ghost predicate Considered(bits: nat, win: seq<Byte>, s: nat, head: nat, limit: nat, q: nat)
    requires s + 2 < |win|
  {
    Reached(s, head, q) && SameHash(bits, win, q, s) <= limit
  }

  // No string that the search comes to matches on more than `len` bytes.
  ghost predicate NoneLonger(bits: nat, win: seq<Byte>, s: nat, head: nat, limit: nat, len: nat)
    requires s + len < |win| && s + 2 < |win|
  {
    forall q: nat :: Considered(bits, win, s, head, limit, q) ==> !Agree(win, q, s, len + 1)
  }

  // Nothing is left behind `next`, and nothing before it is considered.
  lemma SearchOver(bits: nat, win: seq<Byte>, s: nat, head: nat, limit: nat, next: nat, best: nat)
    requires s + MAX_MATCH < |win| && 2 <= best < MAX_MATCH && NoneLeft(bits, win, next, s, best + 1)
    requires forall q: nat :: Considered(bits, win, s, head, limit, q) ==> q > next
    ensures NoneLonger(bits, win, s, head, limit, best)
  {
    hide HashAt, Agree, SameHash;
    forall q: nat | Considered(bits, win, s, head, limit, q)
      ensures !Agree(win, q, s, best + 1)
    {
      if Agree(win, q, s, best + 1) {
        AgreeHash(bits, win, q, s, best + 1);
      }
    }
  }

  lemma ChainEnds(bits: nat, win: seq<Byte>, s: nat, head: nat, limit: nat, next: nat, best: nat)
    requires s + MAX_MATCH < |win| && 2 <= best < MAX_MATCH && NoneLeft(bits, win, next, s, best + 1)
    requires next <= Limit(s) && next < head
    ensures NoneLonger(bits, win, s, head, limit, best)
  {
    hide HashAt, Agree, NoneLeft, SameHash;
    SearchOver(bits, win, s, head, limit, next, best);
  }

  lemma LimitReached(bits: nat, win: seq<Byte>, s: nat, head: nat, limit: nat, cur: nat, best: nat)
    requires s + MAX_MATCH < |win| && 2 <= best < MAX_MATCH && NoneLeft(bits, win, cur, s, best + 1)
    requires SameHash(bits, win, cur, s) > limit
    ensures NoneLonger(bits, win, s, head, limit, best)
  {
    hide HashAt, Agree, NoneLeft, SameHash;
    forall q: nat | Considered(bits, win, s, head, limit, q)
      ensures q > cur
    {
      if q <= cur {
        SameHashMono(bits, win, q, cur, s);
      }
    }
    SearchOver(bits, win, s, head, limit, cur, best);
  }

  // When no more strings in reach have the hash than the limit allows, none of
  // them matches on more bytes.
  lemma ReachSearched(bits: nat, win: seq<Byte>, s: nat, head: nat, limit: nat, len: nat)
    requires s + MAX_MATCH < |win| && len < MAX_MATCH && NoneLonger(bits, win, s, head, limit, len)
    requires SameHash(bits, win, Limit(s) + 1, s) <= limit
    ensures NoMatch(win, Limit(s), s, len + 1)
  {
    hide HashAt, Agree, SameHash;
    var k := len + 1;
    forall q | Limit(s) < q < s
      ensures !Agree(win, q, s, k)
    {
      SameHashMono(bits, win, Limit(s) + 1, q, s);
      assert Considered(bits, win, s, head, limit, q);
    }
  }

  class SlidingWindow {
    const window: array<Byte>   // 2 * WSIZE bytes, and room for what a comparison may read behind them
    const head: array<nat>
    const prev: array<nat>
    const hashBits: nat
    const reader: Reader
    var strstart: nat
    var lookahead: nat
    var matchStart: nat
    var insH: nat
    var blockStart: int
    var eofile: bool
    ghost var base: nat         // where in the input window[0] is

    ghost predicate Sized()
    {
      && window.Length == 2 * WSIZE + MAX_MATCH && head != prev
      && head.Length == Pow2(hashBits) && prev.Length == WSIZE && HashSize(hashBits)
    }

    // The window holds the input around the current position.
    ghost predicate Holds()
      reads this, window, reader
    {
      && reader.Valid() && strstart + lookahead <= 2 * WSIZE <= window.Length
      && base + strstart + lookahead == reader.pos
      && window[..strstart + lookahead] == reader.data[base..reader.pos]
      && (eofile ==> strstart + lookahead <= 2 * WSIZE - 2)
      && (base > 0 ==> strstart >= MAX_DIST)
    }

    // All strings before `n` are in the dictionary.
    ghost predicate IndexedTo(n: nat)
      reads this, window, head, prev
    {
      Indexed(hashBits, head[..], prev[..], window[..], n)
    }

    // The running hash has taken in the first two bytes at `n`.
    ghost predicate HashedTo(n: nat)
      reads this, window
    {
      n + 1 < window.Length && Primed(hashBits, insH, window[n], window[n + 1])
    }

    // `memory` is what happens to be in the window.
    constructor (bits: nat, input: Reader, memory: seq<Byte>)
      requires HashSize(bits) && |memory| == 2 * WSIZE + MAX_MATCH
      ensures Sized() && hashBits == bits && reader == input && window[..] == memory
      ensures fresh(window) && fresh(head) && fresh(prev)
    {
      window := new Byte[|memory|](i requires 0 <= i < |memory| => memory[i]);
      head := new nat[Pow2(bits)];
      prev := new nat[WSIZE];
      hashBits, reader := bits, input;
      strstart, lookahead, matchStart, insH, blockStart, eofile := 0, 0, 0, 0, 0, false;
      base := 0;
    }

    method InsertString(s: nat) returns (matchHead: nat)
      requires Sized() && s < 2 * WSIZE && IndexedTo(s) && HashedTo(s)
      modifies this`insH, head, prev
      ensures IndexedTo(s + 1) && HashedTo(s + 1) && (old(Holds()) ==> Holds())
      ensures matchHead == Latest(hashBits, window[..], s, HashAt(hashBits, window[..], s))
    {
      hide Primed, UpdateHash, Hash3, Latest, Pow2, HashSize, Reader.Sums;
      ghost var hd, pv, win := head[..], prev[..], window[..];
      PrimedStep(hashBits, insH, window[s], window[s + 1], window[s + 2]);
      IndexInsert(hashBits, hd, pv, win, s, HashAt(hashBits, win, s));
      insH := UpdateHash(hashBits, insH, window[s + MIN_MATCH - 1]);
      matchHead := head[insH];
      prev[s % WSIZE] := matchHead;
      head[insH] := s;
      assert head[..] == hd[insH := s] && prev[..] == pv[s % WSIZE := matchHead];
    }

    // Set matchStart to the nearest of the longest matches for the string at
    // strstart that are longer than `prevLength`. `top` is the largest index of the
    // window that is looked at.
    method LongestMatch(curMatch: nat, prevLength: nat) returns (bestLen: nat, ghost top: nat)
      requires Sized() && strstart < 2 * WSIZE && IndexedTo(strstart + 1) && 2 <= prevLength < MAX_MATCH
      requires 0 < curMatch < strstart && strstart - curMatch <= MAX_DIST
      requires curMatch == Latest(hashBits, window[..], strstart, HashAt(hashBits, window[..], strstart))
      modifies this`matchStart
      ensures Found(window[..], strstart, curMatch, prevLength, bestLen, matchStart, old(matchStart))
      ensures bestLen < MAX_MATCH ==> NoneLonger(hashBits, window[..], strstart, curMatch, ChainLimit(prevLength), bestLen)
      ensures CompareTop(window[..], curMatch, strstart, prevLength) <= top <= strstart + MAX_MATCH
      ensures bestLen == MAX_MATCH ==> top == strstart + MAX_MATCH
    {
      hide HashAt, Latest, Agree, NoMatch, NoneLeft, Indexed, Searching, Found, Limit, HashSize, Pow2, SameHash, CompareTop,
           NoneLonger;
      ghost var win, s, oldMs := window[..], strstart, matchStart;
      SearchStart(hashBits, win, s, prevLength, oldMs, curMatch);
      OneMore(hashBits, win, s, s);
      NoneYet(hashBits, win, s);
      var chainLength := MAX_CHAIN;
      var scan := strstart;
      bestLen := prevLength;
      var limit := Limit(strstart);
      var scanEnd1, scanEnd := window[scan + bestLen - 1], window[scan + bestLen];
      if prevLength >= GOOD_MATCH {
        chainLength := chainLength / 4;
      }
      var cur := curMatch;
      top := scan + bestLen;
      while true
        invariant s + prevLength <= top <= s + MAX_MATCH && (cur == curMatch ==> bestLen == prevLength)
        invariant cur != curMatch ==> CompareTop(win, curMatch, s, prevLength) <= top
        invariant Sized() && strstart == s && 1 <= chainLength <= ChainLimit(prevLength)
        invariant 2 <= bestLen < MAX_MATCH && 0 < cur < s
        invariant SameHash(hashBits, win, cur, s) == ChainLimit(prevLength) - chainLength + 1
        invariant Searching(hashBits, win, s, curMatch, prevLength, bestLen, matchStart, oldMs, cur)
        invariant scanEnd1 == window[s + bestLen - 1] && scanEnd == window[s + bestLen]
        decreases cur
      {
        SearchingAt(hashBits, win, s, curMatch, prevLength, bestLen, matchStart, oldMs, cur);
        var len;
        ghost var seen;
        len, seen := CompareAt(window, cur, scan, bestLen, scanEnd1, scanEnd, hashBits);
        top := if seen > top then seen else top;
        if len > bestLen {
          TakenTop(win, cur, s, bestLen, len);
          SearchTaken(hashBits, win, s, curMatch, prevLength, bestLen, matchStart, oldMs, cur, len);
          matchStart := cur;
          bestLen := len;
          if len >= NICE_MATCH {
            break;
          }
          scanEnd1, scanEnd := window[scan + bestLen - 1], window[scan + bestLen];
        }
        OneMore(hashBits, win, cur, s);
        FollowLink(hashBits, head[..], prev[..], win, s + 1, cur);
        SearchNext(hashBits, win, s, curMatch, prevLength, bestLen, matchStart, oldMs, cur, prev[cur % WSIZE]);
        SearchingAt(hashBits, win, s, curMatch, prevLength, bestLen, matchStart, oldMs, cur);
        cur := prev[cur % WSIZE];
        if cur <= limit {
          ChainEnds(hashBits, win, s, curMatch, ChainLimit(prevLength), cur, bestLen);
          break;
        }
        SearchingAt(hashBits, win, s, curMatch, prevLength, bestLen, matchStart, oldMs, cur);
        chainLength := chainLength - 1;
        if chainLength == 0 {
          LimitReached(hashBits, win, s, curMatch, ChainLimit(prevLength), cur, bestLen);
          break;
        }
      }
    }

    // Move the upper half of the window to the lower one.
    method Slide()
      requires Sized() && Holds() && IndexedTo(strstart) && strstart >= WSIZE + MAX_DIST && lookahead >= 2
      modifies this`strstart, this`matchStart, this`blockStart, this`base, window, head, prev
      ensures Holds() && IndexedTo(strstart)
      ensures old(HashedTo(strstart)) ==> HashedTo(strstart)
      ensures strstart == old(strstart) - WSIZE && base == old(base) + WSIZE && blockStart == old(blockStart) - WSIZE
      ensures matchStart == U32(old(matchStart) - WSIZE)
    {
      hide Indexed, Latest, HashAt, Pow2, HashSize, Primed, SlidSeq, U32, Reader.Sums;
      ghost var win, hd, pv := window[..], head[..], prev[..];
      ghost var n := strstart;
      CopyDown(window);
      SlideTable(head);
      SlideTable(prev);
      matchStart := U32(matchStart - WSIZE);
      strstart := strstart - WSIZE;
      blockStart := blockStart - WSIZE;
      base := base + WSIZE;
      SlideBytes(win, window[..], n);
      IndexSlide(hashBits, hd, pv, win, window[..], n);
      assert window[..strstart + lookahead] == win[WSIZE..n + lookahead];
      assert win[..n + lookahead][WSIZE..] == win[WSIZE..n + lookahead];
    }

    // Fill the window when the lookahead becomes insufficient. The position in
    // the input, the pending match and the start of the block are unaffected.
    method FillWindow()
      requires Sized() && Holds() && IndexedTo(strstart) && 1 <= lookahead < MIN_LOOKAHEAD
      requires strstart == 0 || lookahead >= 2
      modifies this`strstart, this`lookahead, this`matchStart, this`blockStart, this`eofile, this`base,
               window, head, prev, reader`calls, reader`pos, reader`isize, reader`crc, reader`failed
      ensures Holds() && IndexedTo(strstart)
      ensures lookahead >= 2 && old(HashedTo(strstart)) && old(lookahead) >= 2 ==> HashedTo(strstart)
      ensures SamePlace(old(strstart), old(base), old(matchStart), old(blockStart), strstart, base, matchStart, blockStart)
      ensures old(lookahead) <= lookahead && old(reader.pos) <= reader.pos
      ensures old(eofile) ==> eofile
      ensures !old(eofile) ==> if eofile then reader.failed || reader.pos == |reader.data| else lookahead > old(lookahead)
      ensures base == old(base) + if old(strstart) >= WSIZE + MAX_DIST then WSIZE else 0
      ensures !old(eofile) && old(reader.pos) == |reader.data| ==> eofile && lookahead == old(lookahead)
      ensures !old(eofile) && old(reader.pos) == |reader.data| && base == old(base) ==> window[..] == old(window[..])
    {
      hide Indexed, Latest, HashAt, Pow2, HashSize, Primed, U32, SamePlace, Reader.Sums;
      ghost var s0, b0, m0, k0 := strstart, base, matchStart, blockStart;
      var more := U32(2 * WSIZE - lookahead - strstart);
      assert more == 2 * WSIZE - lookahead - strstart by { SmallU32(2 * WSIZE - lookahead - strstart); }
      StayPlace(s0, b0, m0, k0);
      if strstart >= WSIZE + MAX_DIST {
        Slide();
        SlidePlace(s0, b0, m0, k0);
        more := more + WSIZE;
      }
      assert more >= 2;
      if !eofile {
        ReadMore(more);
      }
    }

    // Read at most `more` bytes behind the lookahead.
    method ReadMore(more: nat)
      requires Sized() && Holds() && IndexedTo(strstart) && !eofile && 1 <= lookahead
      requires strstart == 0 || lookahead >= 2
      requires 2 <= more && strstart + lookahead + more <= 2 * WSIZE
      modifies this`lookahead, this`eofile, window, reader`calls, reader`pos, reader`isize, reader`crc, reader`failed
      ensures Holds() && IndexedTo(strstart)
      ensures old(HashedTo(strstart)) && old(lookahead) >= 2 ==> HashedTo(strstart)
      ensures old(lookahead) <= lookahead && old(reader.pos) <= reader.pos
      ensures if eofile then reader.failed || reader.pos == |reader.data| else lookahead > old(lookahead)
      ensures old(reader.pos) == |reader.data| ==> eofile && lookahead == old(lookahead) && window[..] == old(window[..])
    {
      hide Indexed, Latest, HashAt, Pow2, HashSize, Primed, U32, Reader.Valid;
      ghost var win, end := window[..], strstart + lookahead;
      var n := ReadBehind(strstart + lookahead, more);
      if n == 0 || n == -1 {
        eofile := true;
      } else {
        lookahead := lookahead + n;
      }
      StringsKept(hashBits, head[..], prev[..], win, window[..], strstart, end);
    }

    // The read itself: the window then holds the input up to where it is read.
    method ReadBehind(end: nat, more: nat) returns (n: int)
      requires Sized() && reader.Valid() && more >= 1 && end + more <= 2 * WSIZE
      requires base + end == reader.pos && window[..end] == reader.data[base..reader.pos]
      modifies window, reader`calls, reader`pos, reader`isize, reader`crc, reader`failed
      ensures reader.Valid() && -1 <= n <= more && reader.pos == old(reader.pos) + (if n > 0 then n else 0)
      ensures window[..reader.pos - base] == reader.data[base..reader.pos]
      ensures forall i :: 0 <= i < end ==> window[i] == old(window[i])
      ensures n == -1 ==> reader.failed
      ensures n == 0 ==> reader.pos == |reader.data|
      ensures old(reader.pos) == |reader.data| ==> n <= 0
      ensures n <= 0 ==> window[..] == old(window[..])
    {
      hide U32, Pow2, HashSize, Reader.Sums;
      ghost var win, pos := window[..], reader.pos;
      n := reader.FileRead(window, end, more);
      ghost var m := if n >= 0 then n else 0;
      ReadText(win, window[..], reader.data, base, end, pos, m);
      FrontOf(window, end + m);
      assert n <= 0 ==> window[..] == win;
    }

    // While there may be more input, the lookahead is sufficient.
    ghost predicate Filled()
      reads this, reader
    {
      if eofile then reader.failed || reader.pos == |reader.data| else lookahead >= MIN_LOOKAHEAD
    }

    ghost predicate Unmoved(base0: nat, lookahead0: nat, eofile0: bool, window0: seq<Byte>)
      reads this, window
    {
      base == base0 && lookahead == lookahead0 && eofile == eofile0 && window[..] == window0
    }

    // What has become of the window that had `lookahead0` bytes of lookahead at
    // `strstart0`: it is left alone when they suffice, and it may move when the
    // end of the input, reached before, is noted.
    ghost predicate ToppedUp(base0: nat, strstart0: nat, lookahead0: nat, eofile0: bool, window0: seq<Byte>, atEnd: bool)
      reads this, window
    {
      if eofile0 || lookahead0 >= MIN_LOOKAHEAD then Unmoved(base0, lookahead0, eofile0, window0)
      else atEnd ==>
        && eofile && lookahead == lookahead0
        && base == base0 + (if strstart0 >= WSIZE + MAX_DIST then WSIZE else 0)
        && (base == base0 ==> window[..] == window0)
    }

    // Read until there is enough lookahead or the input ends.
    method FillUp()
      requires Sized() && Holds() && IndexedTo(strstart) && HashedTo(strstart)
      requires !eofile ==> lookahead >= 2
      requires eofile ==> Filled()
      modifies this`strstart, this`lookahead, this`matchStart, this`blockStart, this`eofile, this`base,
               window, head, prev, reader`calls, reader`pos, reader`isize, reader`crc, reader`failed
      ensures Holds() && IndexedTo(strstart) && HashedTo(strstart) && Filled()
      ensures SamePlace(old(strstart), old(base), old(matchStart), old(blockStart), strstart, base, matchStart, blockStart)
      ensures old(lookahead) <= lookahead && old(reader.pos) <= reader.pos
      ensures old(eofile) ==> lookahead == old(lookahead)
      ensures ToppedUp(old(base), old(strstart), old(lookahead), old(eofile), old(window[..]), old(reader.pos) == |reader.data|)
    {
      hide Indexed, Primed, U32, HashSize, Pow2, Reader.Sums;
      ghost var s0, b0, m0, k0 := strstart, base, matchStart, blockStart;
      while lookahead < MIN_LOOKAHEAD && !eofile
        invariant Sized() && Holds() && IndexedTo(strstart) && HashedTo(strstart)
        invariant !eofile ==> lookahead >= 2
        invariant eofile ==> Filled()
        invariant SamePlace(s0, b0, m0, k0, strstart, base, matchStart, blockStart)
        invariant old(lookahead) <= lookahead && old(reader.pos) <= reader.pos
        invariant old(eofile) ==> eofile && lookahead == old(lookahead)
        invariant old(eofile) || old(lookahead) >= MIN_LOOKAHEAD ==>
                    Unmoved(old(base), old(lookahead), old(eofile), old(window[..]))
        invariant !old(eofile) && old(lookahead) < MIN_LOOKAHEAD && old(reader.pos) == |reader.data| ==>
                    if eofile then
                      && lookahead == old(lookahead)
                      && base == old(base) + (if old(strstart) >= WSIZE + MAX_DIST then WSIZE else 0)
                      && (base == old(base) ==> window[..] == old(window[..]))
                    else
                      Unmoved(old(base), old(lookahead), old(eofile), old(window[..]))
                      && strstart == old(strstart) && reader.pos == old(reader.pos)
        decreases MIN_LOOKAHEAD - lookahead, !eofile
      {
        FillWindow();
      }
    }

    // The first read delivered `n` bytes and left the rest of the window alone.
    ghost predicate FirstPiece(n: int, memory: seq<Byte>)
      reads this, window
    {
      n > 0 ==> lookahead == n && !eofile && |memory| == window.Length && n <= |memory| && window[n..] == memory[n..]
    }

    // The first read of a new file.
    method FirstRead()
      requires Sized() && reader.Valid() && reader.pos == 0
      modifies this, window, head, reader`calls, reader`pos, reader`isize, reader`crc, reader`failed
      ensures Holds() && IndexedTo(0) && strstart == 0 && blockStart == 0 && base == 0
      ensures eofile ==> lookahead == 0 && (reader.failed || reader.pos == |reader.data|)
      ensures !eofile ==> lookahead >= 1
      ensures FirstPiece(old(reader.Planned(2 * WSIZE)), old(window[..]))
    {
      hide Indexed, U32, HashSize, Pow2, Reader.Sums;
      ClearTable(head);
      strstart := 0;
      blockStart := 0;
      base := 0;
      var n := reader.FileRead(window, 0, 2 * WSIZE);
      IndexEmpty(hashBits, head[..], prev[..], window[..]);
      eofile := n == 0 || n == -1;
      lookahead := if eofile then 0 else n;
    }

    method StartHash()
      requires Sized()
      modifies this`insH
      ensures HashedTo(0)
    {
      hide Primed, UpdateHash;
      insH := 0;
      var j := 0;
      while j < MIN_MATCH - 1
        invariant 0 <= j <= 2
        invariant j == 0 ==> insH == 0
        invariant j == 1 ==> insH == UpdateHash(hashBits, 0, window[0])
        invariant j == 2 ==> insH == UpdateHash(hashBits, UpdateHash(hashBits, 0, window[0]), window[1])
      {
        insH := UpdateHash(hashBits, insH, window[j]);
        j := j + 1;
      }
      PrimedFirst(hashBits, window[0], window[1]);
    }

    // Initialize the window for a new file.
    method LmInit()
      requires Sized() && reader.Valid() && reader.pos == 0
      modifies this, window, head, prev, reader`calls, reader`pos, reader`isize, reader`crc, reader`failed
      ensures Holds() && IndexedTo(0) && Filled() && (lookahead > 0 ==> HashedTo(0))
      ensures strstart == 0 && blockStart == 0 && base == 0
      ensures old(reader.Planned(2 * WSIZE)) >= MIN_LOOKAHEAD ==> FirstPiece(old(reader.Planned(2 * WSIZE)), old(window[..]))
    {
      hide Indexed, Primed, U32, HashSize, Pow2, SamePlace, Reader.Sums;
      FirstRead();
      ghost var win, n := window[..], lookahead;
      if eofile {
        return;
      }
      while lookahead < MIN_LOOKAHEAD && !eofile
        invariant Sized() && Holds() && IndexedTo(strstart) && lookahead >= 1
        invariant eofile ==> Filled()
        invariant strstart == 0 && blockStart == 0 && base == 0
        invariant n >= MIN_LOOKAHEAD ==> lookahead == n && !eofile && window[..] == win
        decreases MIN_LOOKAHEAD - lookahead, !eofile
      {
        ghost var m := matchStart;
        FillWindow();
        AtStart(m, strstart, base, matchStart, blockStart);
      }
      StartHash();
    }
  }

  lemma FrontOf(window: array<Byte>, n: nat)
    requires n <= window.Length
    ensures window[..][..n] == window[..n]
  {
  }

  method ClearTable(a: array<nat>)
    modifies a
    ensures forall i :: 0 <= i < a.Length ==> a[i] == 0
  {
    var n := 0;
    while n < a.Length
      invariant 0 <= n <= a.Length && forall i :: 0 <= i < n ==> a[i] == 0
    {
      a[n] := 0;
      n := n + 1;
    }
  }

  lemma AtStart(m: nat, s: nat, b: nat, m': nat, k: int)
    requires SamePlace(0, 0, m, 0, s, b, m', k)
    ensures s == 0 && b == 0 && k == 0
  {
  }

  lemma PrimedFirst(bits: nat, a: Byte, b: Byte)
    ensures Primed(bits, UpdateHash(bits, UpdateHash(bits, 0, a), b), a, b)
  {
    hide UpdateHash;
  }

  lemma ReadText(win: seq<Byte>, win': seq<Byte>, data: seq<Byte>, base: nat, end: nat, pos: nat, n: nat)
    requires base + end == pos && pos + n <= |data| && end + n <= |win| && win[..end] == data[base..pos]
    requires |win'| == |win| && forall i :: 0 <= i < end ==> win'[i] == win[i]
    requires win'[end..end + n] == data[pos..pos + n]
    ensures win'[..end + n] == data[base..pos + n]
  {
    assert win'[..end] == win[..end];
    assert win'[..end + n] == win'[..end] + win'[end..end + n];
  }

  lemma SmallU32(x: int)
    requires 0 <= x < 0x1_0000_0000
    ensures U32(x) == x
  {
  }

  lemma StringsKept(bits: nat, head: seq<nat>, prev: seq<nat>, win: seq<Byte>, win': seq<Byte>, n: nat, end: nat)
    requires Indexed(bits, head, prev, win, n) && |win'| == |win| && end <= |win|
    requires forall i :: 0 <= i < end ==> win'[i] == win[i]
    requires n == 0 || n + 2 <= end
    ensures Indexed(bits, head, prev, win', n)
  {
    if n == 0 {
      assert forall h :: 0 <= h < |head| ==> head[h] == 0;
      IndexEmpty(bits, head, prev, win');
    } else {
      IndexExtend(bits, head, prev, win, win', n);
    }
  }

  lemma SlideBytes(win: seq<Byte>, win': seq<Byte>, n: nat)
    requires |win| >= 2 * WSIZE && win' == win[WSIZE..2 * WSIZE] + win[WSIZE..]
    ensures |win'| == |win| && forall i :: 0 <= i < WSIZE ==> win'[i] == win[i + WSIZE]
  {
  }

  // Distance of a match for the string just before `s`; `m` may have wrapped
  // below zero.
  function PendingDist(s: nat, m: nat): nat
  {
    U32(s - 1 - m)
  }

  // Both describe the same place in the input: current position, start of the
  // block, and distance of the pending match.
  ghost predicate SamePlace(s0: nat, b0: nat, m0: nat, k0: int, s: nat, b: nat, m: nat, k: int)
  {
    && b + s == b0 + s0 && b + k == b0 + k0 && b >= b0 && (s0 >= 1 ==> s >= 1)
    && PendingDist(s, m) == PendingDist(s0, m0)
  }

  lemma StayPlace(s: nat, b: nat, m: nat, k: int)
    ensures SamePlace(s, b, m, k, s, b, m, k)
  {
  }

  lemma SlidePlace(s: nat, b: nat, m: nat, k: int)
    requires s > WSIZE
    ensures SamePlace(s, b, m, k, s - WSIZE, b + WSIZE, U32(m - WSIZE), k - WSIZE)
  {
    var q := (m - WSIZE) / 0x1_0000_0000;
    ModShift(s - 1 - m, q, 0x1_0000_0000);
  }

  // ---------- fill_window ----------

  // Move the positions in a table down with the window.
  method SlideTable(a: array<nat>)
    modifies a
    ensures a[..] == SlidSeq(old(a[..]))
  {
    ghost var t := a[..];
    var n := 0;
    while n < a.Length
      invariant 0 <= n <= a.Length
      invariant forall i :: 0 <= i < a.Length ==> a[i] == if i < n then Slid(t[i]) else t[i]
    {
      var m := a[n];
      a[n] := if m >= WSIZE then m - WSIZE else 0;
      n := n + 1;
    }
  }

  // The upper half of the window over the lower half.
  method CopyDown(window: array<Byte>)
    requires window.Length >= 2 * WSIZE
    modifies window
    ensures window[..] == old(window[WSIZE..2 * WSIZE]) + old(window[WSIZE..])
  {
    ghost var w := window[..];
    var n := 0;
    while n < WSIZE
      invariant 0 <= n <= WSIZE
      invariant forall i :: 0 <= i < n ==> window[i] == w[i + WSIZE]
      invariant forall i :: n <= i < window.Length ==> window[i] == w[i]
    {
      assert window[n + WSIZE] == w[n + WSIZE];
      window[n] := window[n + WSIZE];
      n := n + 1;
    }
  }

  lemma SearchingAt(bits: nat, win: seq<Byte>, s: nat, head: nat, prevLength: nat, best: nat, ms: nat, oldMs: nat, cur: nat)
    requires s + MAX_MATCH < |win| && Searching(bits, win, s, head, prevLength, best, ms, oldMs, cur)
    ensures HashAt(bits, win, cur) == HashAt(bits, win, s) && 0 < cur < s && Linked(cur, s + 1)
    ensures Found(win, s, head, prevLength, best, ms, oldMs)
  {
    hide HashAt, Found, NoneLeft;
  }
}
