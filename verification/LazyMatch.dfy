/** Which matches deflate finds, and what it makes of them. */
module LazyMatch {
  import opened Arith
  import opened Bits
  import opened Rfc1951
  import opened Tokens
  import opened Hash
  import opened Chains
  import opened Window
  import opened Search

  const MAX_LAZY: nat := 258

  // ---------- matches in the input ----------

  // A match for the `len` bytes of the input at `at`, `d` back.
  ghost predicate MatchAt(data: seq<Byte>, at: nat, d: nat, len: nat)
  {
    && at + len <= |data| && 1 <= d <= MAX_DIST && d <= at
    && (len == MIN_MATCH ==> d <= TOO_FAR)
    && forall i :: at <= i < at + len ==> data[i] == data[i - d]
  }

  // Agreement in the window is agreement in the input.
  lemma FoundIsMatch(win: seq<Byte>, data: seq<Byte>, base: nat, s: nat, end: nat, ms: nat, len: nat)
    requires ms < s && s + len <= end <= |win| && base + end <= |data| && win[..end] == data[base..base + end]
    requires Agree(win, ms, s, len) && s - ms <= MAX_DIST && (len == MIN_MATCH ==> s - ms <= TOO_FAR)
    ensures MatchAt(data, base + s, s - ms, len)
  {
    var d := s - ms;
    forall i | base + s <= i < base + s + len
      ensures data[i] == data[i - d]
    {
      assert win[..end][i - base] == data[base..base + end][i - base];
      assert win[..end][i - d - base] == data[base..base + end][i - d - base];
      assert win[i - d - base] == win[i - d - base + (s - ms)];
    }
  }

  lemma FoundShorter(win: seq<Byte>, ms: nat, s: nat, len: nat, k: nat)
    requires ms <= s && s + len <= |win| && k <= len && Agree(win, ms, s, len)
    ensures Agree(win, ms, s, k)
  {
  }

  // ---------- one search ----------

  // No string in reach agrees with the one at `s` on three bytes.
  ghost predicate Dull(win: seq<Byte>, s: nat)
    requires s + 3 <= |win|
  {
    forall q :: 0 < q < s && s - q <= MAX_DIST ==> !Agree(win, q, s, 3)
  }

  // The head of the chain is searched.
  predicate Searched(s: nat, hashHead: nat, prevLength: nat)
  {
    hashHead != 0 && prevLength < MAX_LAZY && s - hashHead <= MAX_DIST
  }

  // A match of `k` bytes that starts at `q` may be passed over: one of three bytes
  // is dropped when it is too far away, and, when there are no more than three bytes
  // left, also when a match that is too far away goes on behind them.
  ghost predicate Excused(win: seq<Byte>, s: nat, lookahead: nat, head: nat, q: nat, k: nat)
    requires s + MAX_MATCH < |win|
  {
    && k == MIN_MATCH
    && (s - q > TOO_FAR ||
        (lookahead == MIN_MATCH && exists p: nat :: Reached(s, head, p) && s - p > TOO_FAR && Agree(win, p, s, MIN_MATCH + 1)))
  }

  // No match that the search comes to is longer than the one found and the one that
  // is to be beaten.
  ghost predicate Best(bits: nat, win: seq<Byte>, s: nat, lookahead: nat, head: nat, prevLength: nat, len: nat)
    requires s + MAX_MATCH < |win|
  {
    forall q: nat, k: nat ::
      (MIN_MATCH <= k <= MAX_MATCH && k <= lookahead && Considered(bits, win, s, head, ChainLimit(prevLength), q) &&
       Agree(win, q, s, k)) ==>
        k <= len || k <= prevLength || Excused(win, s, lookahead, head, q, k)
  }

  // How the search for the string at `s` went that starts at `head`: it found `len`
  // bytes, and `top` is the largest index of the window it looked at.
  ghost predicate Looked(bits: nat, win: seq<Byte>, s: nat, lookahead: nat, head: nat, prevLength: nat, len: nat, top: nat)
    requires s + MAX_MATCH < |win| && 2 <= prevLength <= MAX_MATCH && head <= s
  {
    && (!Searched(s, head, prevLength) ==> len == 2 && top == 0)
    && (Dull(win, s) && prevLength == 2 && lookahead >= 2 ==> len == 2)
    && top <= s + MAX_MATCH
    && (Searched(s, head, prevLength) ==> head < s && top >= CompareTop(win, head, s, prevLength))
    && Best(bits, win, s, lookahead, head, prevLength, len)
  }

  lemma NotDull(win: seq<Byte>, ms: nat, s: nat, len: nat)
    requires 0 < ms < s && s - ms <= MAX_DIST && 3 <= len && s + len <= |win| && Agree(win, ms, s, len)
    ensures !Dull(win, s)
  {
    hide Agree;
    FoundShorter(win, ms, s, len, 3);
  }

  lemma SmallDist(s: nat, m: nat)
    requires m < s < 0x1_0000
    ensures U32(s - m) == s - m && PendingDist(s + 1, m) == s - m
  {
  }

  // What deflate makes of the result of longest_match.
  function Clipped(found: nat, ms: nat, s: nat, lookahead: nat): nat
  {
    var len := if found > lookahead then lookahead else found;
    if len == MIN_MATCH && U32(s - ms) > TOO_FAR then len - 1 else len
  }

  lemma FoundAll(bits: nat, win: seq<Byte>, s: nat, head: nat, limit: nat, found: nat, q: nat, k: nat)
    requires s + MAX_MATCH < |win| && 2 <= found <= MAX_MATCH && k <= MAX_MATCH
    requires found < MAX_MATCH ==> NoneLonger(bits, win, s, head, limit, found)
    requires Considered(bits, win, s, head, limit, q) && Agree(win, q, s, k)
    ensures k <= found
  {
    hide Agree, SameHash;
    if k > found {
      FoundShorter(win, q, s, k, found + 1);
    }
  }

  // A match of three bytes that is dropped was the nearest.
  lemma DroppedThree(win: seq<Byte>, s: nat, lookahead: nat, head: nat, found: nat, ms: nat, oldMs: nat, q: nat)
    requires s + MAX_MATCH < |win| && s < 0x1_0000 && Found(win, s, head, 2, found, ms, oldMs) && found >= MIN_MATCH
    requires found == MIN_MATCH || lookahead == MIN_MATCH
    requires U32(s - ms) > TOO_FAR && 0 < q < s && Agree(win, q, s, MIN_MATCH)
    ensures Excused(win, s, lookahead, head, q, MIN_MATCH)
  {
    hide Agree, U32;
    SmallDist(s, ms);
    if found > MIN_MATCH {
      FoundShorter(win, ms, s, found, MIN_MATCH + 1);
    }
  }

  // Nothing better than what longest_match found is left out.
  lemma FoundIsBest(bits: nat, win: seq<Byte>, s: nat, lookahead: nat, head: nat, prevLength: nat, found: nat, ms: nat,
      oldMs: nat)
    requires s + MAX_MATCH < |win| && s < 0x1_0000 && 2 <= prevLength <= MAX_MATCH
    requires Found(win, s, head, prevLength, found, ms, oldMs)
    requires found < MAX_MATCH ==> NoneLonger(bits, win, s, head, ChainLimit(prevLength), found)
    ensures Best(bits, win, s, lookahead, head, prevLength, Clipped(found, ms, s, lookahead))
  {
    hide Agree, SameHash, NoneLonger, Found, U32, Excused, ChainLimit;
    var limit := ChainLimit(prevLength);
    forall q: nat, k: nat | MIN_MATCH <= k <= MAX_MATCH && k <= lookahead && Considered(bits, win, s, head, limit, q) &&
                            Agree(win, q, s, k)
      ensures k <= Clipped(found, ms, s, lookahead) || k <= prevLength || Excused(win, s, lookahead, head, q, k)
    {
      FoundRange(win, s, head, prevLength, found, ms, oldMs);
      FoundAll(bits, win, s, head, limit, found, q, k);
      if k > Clipped(found, ms, s, lookahead) && k > prevLength {
        DroppedThree(win, s, lookahead, head, found, ms, oldMs, q);
      }
    }
  }

  lemma FoundRange(win: seq<Byte>, s: nat, head: nat, prevLength: nat, len: nat, ms: nat, oldMs: nat)
    requires s + MAX_MATCH < |win| && Found(win, s, head, prevLength, len, ms, oldMs)
    ensures prevLength <= len <= MAX_MATCH
  {
    hide Agree, NoMatch;
  }

  // Where nothing is searched there is nothing to find.
  lemma NothingIsBest(bits: nat, win: seq<Byte>, s: nat, lookahead: nat, head: nat, prevLength: nat)
    requires s + MAX_MATCH < |win| && !Searched(s, head, prevLength)
    requires head == Latest(bits, win, s, HashAt(bits, win, s))
    ensures Best(bits, win, s, lookahead, head, prevLength, 2)
  {
    hide Agree, SameHash, HashAt, Latest, Excused;
    LatestIs(bits, win, s, HashAt(bits, win, s));
    forall q: nat, k: nat | MIN_MATCH <= k <= MAX_MATCH && k <= lookahead &&
                            Considered(bits, win, s, head, ChainLimit(prevLength), q) && Agree(win, q, s, k)
      ensures k <= prevLength
    {
      AgreeHash(bits, win, q, s, k);
    }
  }

  // ---------- one round ----------

  // The byte before position `s`.
  function ByteBefore(win: seq<Byte>, s: nat): Byte
  {
    if 1 <= s <= |win| then win[s - 1] else 0
  }

  // Lazy matching: the previous match is output unless the match found for the
  // string behind it is longer; then the byte before that string is.
  function Lazy(available: bool, prevLength: nat, prevDist: nat, found: nat, b: Byte): Option<Token>
  {
    if prevLength >= MIN_MATCH && found <= prevLength then Some(Token.Match(prevLength, prevDist))
    else if available then Some(Token.Literal(b))
    else None
  }

  // Behind a match that was output nothing is pending; otherwise the match found
  // is, one byte on.
  predicate Moves(available: bool, prevLength: nat, found: nat, s: nat, available': bool, len': nat, s': nat)
  {
    if prevLength >= MIN_MATCH && found <= prevLength then !available' && len' == 2 && s' == s + prevLength - 1
    else available' && len' == found && s' == s + 1
  }

  // ---------- the tokens ----------

  // The text up to `n` has a match of `k` bytes for the string at `at` that starts
  // at `q`: near enough, and with no more strings of the same hash in between than
  // are searched in any case.
  ghost predicate Available(bits: nat, data: seq<Byte>, n: nat, at: nat, q: nat, k: nat)
  {
    && 3 <= k <= 258 && at + k <= n <= |data| && 0 < q < at && at - q < 32506
    && Agree(data, q, at, k) && SameHash(bits, data, q, at) <= 1024
  }

  // Three bytes, too far away or at the very end.
  predicate Negligible(n: nat, at: nat, q: nat, k: nat)
  {
    k == 3 && (at - q > 4096 || at + 3 == n)
  }

  // No match for the string at `at` is longer than `len`.
  ghost predicate Outdoes(bits: nat, data: seq<Byte>, n: nat, at: nat, len: nat)
  {
    forall q: nat, k: nat :: Available(bits, data, n, at, q, k) ==> k <= len || Negligible(n, at, q, k)
  }

  // There is a match for more than `k` bytes at `at`.
  ghost predicate Longer(data: seq<Byte>, n: nat, at: nat, k: nat)
  {
    exists d: nat, len: nat :: k < len && at + len <= n && MatchAt(data, at, d, len)
  }

  // A literal stands only where there is no match, or a longer one just behind.
  ghost predicate LiteralDue(bits: nat, data: seq<Byte>, n: nat, at: nat)
  {
    forall q: nat, k: nat :: Available(bits, data, n, at, q, k) ==> Negligible(n, at, q, k) || Longer(data, n, at + 1, k)
  }

  ghost predicate TokenDue(bits: nat, data: seq<Byte>, n: nat, at: nat, t: Token)
  {
    match t
    case Literal(_) => LiteralDue(bits, data, n, at)
    case Match(len, _) => Outdoes(bits, data, n, at, len)
  }

  // Every token is the right one at its place.
  ghost predicate Thrifty(bits: nat, data: seq<Byte>, n: nat, ts: seq<Token>)
  {
    forall i :: 0 <= i < |ts| ==> TokenDue(bits, data, n, StartOf(ts, i), ts[i])
  }

  // The tokens so far, and what is pending before position `at`.
  ghost predicate Watched(bits: nat, data: seq<Byte>, n: nat, ts: seq<Token>, available: bool, at: nat, len: nat)
  {
    && Thrifty(bits, data, n, ts) && StartOf(ts, |ts|) + (if available then 1 else 0) == at
    && (available ==> Outdoes(bits, data, n, at - 1, len))
  }

  // ---------- from the window to the input ----------

  lemma ShiftedByte(win: seq<Byte>, data: seq<Byte>, base: nat, end: nat, i: nat)
    requires i < end <= |win| && base + end <= |data| && win[..end] == data[base..base + end]
    ensures win[i] == data[base + i]
  {
    assert win[..end][i] == data[base..base + end][i];
  }

  lemma ShiftedHash(bits: nat, win: seq<Byte>, data: seq<Byte>, base: nat, end: nat, i: nat)
    requires i + 2 < end <= |win| && base + end <= |data| && win[..end] == data[base..base + end]
    ensures HashAt(bits, win, i) == HashAt(bits, data, base + i)
  {
    hide Hash3;
    ShiftedByte(win, data, base, end, i);
    ShiftedByte(win, data, base, end, i + 1);
    ShiftedByte(win, data, base, end, i + 2);
  }

  lemma {:induction false} ShiftedCount(bits: nat, win: seq<Byte>, data: seq<Byte>, base: nat, end: nat, q: nat, s: nat)
    requires q <= s && s + 2 < end <= |win| && base + end <= |data| && win[..end] == data[base..base + end]
    ensures SameHash(bits, win, q, s) == SameHash(bits, data, base + q, base + s)
    decreases s - q
  {
    hide HashAt;
    if q < s {
      ShiftedHash(bits, win, data, base, end, q);
      ShiftedHash(bits, win, data, base, end, s);
      ShiftedCount(bits, win, data, base, end, q + 1, s);
    }
  }

  lemma ShiftedAgree(win: seq<Byte>, data: seq<Byte>, base: nat, end: nat, q: nat, s: nat, k: nat)
    requires q < s && s + k <= end <= |win| && base + end <= |data| && win[..end] == data[base..base + end]
    requires Agree(data, base + q, base + s, k)
    ensures Agree(win, q, s, k)
  {
    forall i | q <= i < q + k
      ensures win[i] == win[i + (s - q)]
    {
      ShiftedByte(win, data, base, end, i);
      ShiftedByte(win, data, base, end, i + (s - q));
      assert data[base + i] == data[base + i + (s - q)];
    }
  }

  // What the search says about the window is true of the text.
  lemma BestOutdoes(bits: nat, win: seq<Byte>, data: seq<Byte>, base: nat, s: nat, lookahead: nat, head: nat, prevLength: nat,
                    len: nat, n: nat)
    requires s + MAX_MATCH < |win| && s + lookahead <= |win| && base + s + lookahead <= n <= |data|
    requires win[..s + lookahead] == data[base..base + s + lookahead]
    requires base > 0 ==> s >= MAX_DIST
    requires lookahead >= MAX_MATCH || n == base + s + lookahead
    requires Best(bits, win, s, lookahead, head, prevLength, len)
    ensures Outdoes(bits, data, n, base + s, if len > prevLength then len else prevLength)
  {
    hide Agree, SameHash, Best, Excused;
    var at, end := base + s, s + lookahead;
    forall q: nat, k: nat | Available(bits, data, n, at, q, k)
      ensures k <= len || k <= prevLength || Negligible(n, at, q, k)
    {
      ShiftedCount(bits, win, data, base, end, q - base, s);
      ShiftedAgree(win, data, base, end, q - base, s, k);
      BestSays(bits, win, s, lookahead, head, prevLength, len, q - base, k);
      ExcusedIs(win, s, lookahead, head, q - base, k);
    }
  }

  lemma BestSays(bits: nat, win: seq<Byte>, s: nat, lookahead: nat, head: nat, prevLength: nat, len: nat, q: nat, k: nat)
    requires s + MAX_MATCH < |win| && Best(bits, win, s, lookahead, head, prevLength, len)
    requires MIN_MATCH <= k <= MAX_MATCH && k <= lookahead && 0 < q < s && s - q < MAX_DIST
    requires SameHash(bits, win, q, s) <= MAX_CHAIN / 4 && Agree(win, q, s, k)
    ensures k <= len || k <= prevLength || Excused(win, s, lookahead, head, q, k)
  {
    hide Agree, SameHash, Excused;
    assert Considered(bits, win, s, head, ChainLimit(prevLength), q);
  }

  lemma ExcusedIs(win: seq<Byte>, s: nat, lookahead: nat, head: nat, q: nat, k: nat)
    requires s + MAX_MATCH < |win|
    ensures Excused(win, s, lookahead, head, q, k) ==> k == MIN_MATCH && (s - q > TOO_FAR || lookahead == MIN_MATCH)
  {
    hide Agree;
  }

  // ---------- from round to round ----------

  // Reading on does not change what was said where a whole match was in sight.
  lemma OutdoesLater(bits: nat, data: seq<Byte>, n: nat, n': nat, at: nat, len: nat)
    requires n <= n' <= |data| && at + MAX_MATCH <= n && Outdoes(bits, data, n, at, len)
    ensures Outdoes(bits, data, n', at, len)
  {
    hide Agree, SameHash;
    forall q: nat, k: nat | Available(bits, data, n', at, q, k)
      ensures k <= len || Negligible(n', at, q, k)
    {
      assert Available(bits, data, n, at, q, k);
    }
  }

  lemma LiteralLater(bits: nat, data: seq<Byte>, n: nat, n': nat, at: nat)
    requires n <= n' <= |data| && at + MAX_MATCH <= n && LiteralDue(bits, data, n, at)
    ensures LiteralDue(bits, data, n', at)
  {
    hide Agree, SameHash, MatchAt;
    forall q: nat, k: nat | Available(bits, data, n', at, q, k)
      ensures Negligible(n', at, q, k) || Longer(data, n', at + 1, k)
    {
      assert Available(bits, data, n, at, q, k);
      if Longer(data, n, at + 1, k) {
        var d: nat, len: nat :| k < len && at + 1 + len <= n && MatchAt(data, at + 1, d, len);
      }
    }
  }

  lemma {:induction false} StartsGrow(ts: seq<Token>, i: nat, j: nat)
    requires i <= j <= |ts|
    ensures StartOf(ts, i) <= StartOf(ts, j)
    decreases j
  {
    if i < j {
      StartsGrow(ts, i, j - 1);
    }
  }

  lemma {:induction false} StartsKeep(ts: seq<Token>, t: Token, i: nat)
    requires i <= |ts|
    ensures StartOf(ts + [t], i) == StartOf(ts, i)
    decreases i
  {
    if i > 0 {
      StartsKeep(ts, t, i - 1);
    }
  }

  lemma ThriftyLater(bits: nat, data: seq<Byte>, n: nat, n': nat, ts: seq<Token>, at: nat)
    requires Thrifty(bits, data, n, ts) && n <= n' <= |data| && at + MAX_MATCH <= n
    requires forall i :: 0 <= i < |ts| ==> StartOf(ts, i) <= at
    ensures Thrifty(bits, data, n', ts)
  {
    hide Outdoes, LiteralDue, StartOf;
    forall i | 0 <= i < |ts|
      ensures TokenDue(bits, data, n', StartOf(ts, i), ts[i])
    {
      var x := StartOf(ts, i);
      assert TokenDue(bits, data, n, x, ts[i]);
      match ts[i]
      case Literal(_) => LiteralLater(bits, data, n, n', x);
      case Match(len, _) => OutdoesLater(bits, data, n, n', x, len);
    }
  }

  lemma ThriftyMore(bits: nat, data: seq<Byte>, n: nat, ts: seq<Token>, t: Token)
    requires Thrifty(bits, data, n, ts) && TokenDue(bits, data, n, StartOf(ts, |ts|), t)
    ensures Thrifty(bits, data, n, ts + [t]) && StartOf(ts + [t], |ts| + 1) == StartOf(ts, |ts|) + Span(t)
  {
    hide TokenDue, StartOf, Span;
    var all := ts + [t];
    forall i | 0 <= i < |all|
      ensures TokenDue(bits, data, n, StartOf(all, i), all[i])
    {
      StartsKeep(ts, t, i);
      if i < |ts| {
        assert TokenDue(bits, data, n, StartOf(ts, i), ts[i]);
      }
    }
    LastStart(ts, t);
  }

  lemma LastStart(ts: seq<Token>, t: Token)
    ensures StartOf(ts + [t], |ts| + 1) == StartOf(ts, |ts|) + Span(t)
    ensures forall i :: 0 <= i <= |ts| ==> StartOf(ts + [t], i) <= StartOf(ts, |ts|)
  {
    hide Span;
    StartsKeep(ts, t, |ts|);
    forall i | 0 <= i <= |ts|
      ensures StartOf(ts + [t], i) <= StartOf(ts, |ts|)
    {
      StartsGrow(ts + [t], i, |ts|);
    }
  }

  // A literal is output because nothing was found, or because more was found behind.
  lemma LiteralIsDue(bits: nat, data: seq<Byte>, n: nat, at: nat, len: nat, found: nat, d: nat)
    requires Outdoes(bits, data, n, at, len)
    requires len < MIN_MATCH || (found > len && at + 1 + found <= n && MatchAt(data, at + 1, d, found))
    ensures LiteralDue(bits, data, n, at)
  {
    hide Available, MatchAt, Negligible;
    forall q: nat, k: nat | Available(bits, data, n, at, q, k)
      ensures Negligible(n, at, q, k) || Longer(data, n, at + 1, k)
    {
      AvailableLength(bits, data, n, at, q, k);
    }
  }

  lemma AvailableLength(bits: nat, data: seq<Byte>, n: nat, at: nat, q: nat, k: nat)
    requires Available(bits, data, n, at, q, k)
    ensures k >= MIN_MATCH
  {
    hide Agree, SameHash;
  }

  lemma OutdoesMore(bits: nat, data: seq<Byte>, n: nat, at: nat, len: nat, found: nat)
    requires Outdoes(bits, data, n, at, if found > len then found else len) && (len < MIN_MATCH || found > len)
    ensures Outdoes(bits, data, n, at, found)
  {
    hide Available, Negligible;
    forall q: nat, k: nat | Available(bits, data, n, at, q, k)
      ensures k <= found || Negligible(n, at, q, k)
    {
      AvailableLength(bits, data, n, at, q, k);
    }
  }

  // One round: the token that is output is due, and what is pending then is the
  // best match for its string.
  lemma RoundWatched(bits: nat, data: seq<Byte>, n: nat, n': nat, ts: seq<Token>, available: bool, at: nat, len: nat,
                     found: nat, d: nat, dist: nat, b: Byte, ts': seq<Token>, available': bool, at': nat, len': nat)
    requires Watched(bits, data, n, ts, available, at, len) && (len >= MIN_MATCH ==> available) && 2 <= len
    requires Outdoes(bits, data, n, at, if found > len then found else len)
    requires found > len ==> at + found <= n && MatchAt(data, at, d, found)
    requires var t := Lazy(available, len, dist, found, b);
             ts' == if t.Some? then ts + [t.value] else ts
    requires Moves(available, len, found, at, available', len', at')
    requires n == n' || (n <= n' <= |data| && at + MAX_MATCH <= n)
    ensures Watched(bits, data, n', ts', available', at', len')
  {
    hide Outdoes, LiteralDue, MatchAt, StartOf;
    if len >= MIN_MATCH && found <= len {
      ThriftyMore(bits, data, n, ts, Token.Match(len, dist));
      LastStart(ts, Token.Match(len, dist));
    } else {
      if available {
        LiteralIsDue(bits, data, n, at - 1, len, found, d);
        ThriftyMore(bits, data, n, ts, Token.Literal(b));
        LastStart(ts, Token.Literal(b));
      }
      OutdoesMore(bits, data, n, at, len, found);
    }
    if n != n' {
      StartsBefore(ts);
      RoundLater(bits, data, n, n', ts', available', at', len', at);
    }
  }

  lemma StartsBefore(ts: seq<Token>)
    ensures forall i :: 0 <= i < |ts| ==> StartOf(ts, i) <= StartOf(ts, |ts|)
  {
    hide StartOf;
    forall i | 0 <= i < |ts|
      ensures StartOf(ts, i) <= StartOf(ts, |ts|)
    {
      StartsGrow(ts, i, |ts|);
    }
  }

  lemma RoundLater(bits: nat, data: seq<Byte>, n: nat, n': nat, ts: seq<Token>, available: bool, at': nat, len: nat, at: nat)
    requires Watched(bits, data, n, ts, available, at', len) && n <= n' <= |data| && at + MAX_MATCH <= n
    requires forall i :: 0 <= i < |ts| ==> StartOf(ts, i) <= at
    requires available ==> at' - 1 <= at
    ensures Watched(bits, data, n', ts, available, at', len)
  {
    hide Outdoes, Thrifty, StartOf;
    ThriftyLater(bits, data, n, n', ts, at);
    if available {
      OutdoesLater(bits, data, n, n', at' - 1, len);
    }
  }

  // The last byte of the text is a literal in any case.
  lemma LastWatched(bits: nat, data: seq<Byte>, n: nat, ts: seq<Token>, at: nat, len: nat, b: Byte)
    requires Watched(bits, data, n, ts, true, at, len) && n == at
    ensures Thrifty(bits, data, n, ts + [Token.Literal(b)])
  {
    hide Outdoes, Agree, SameHash, StartOf;
    assert LiteralDue(bits, data, n, at - 1);
    ThriftyMore(bits, data, n, ts, Token.Literal(b));
  }

  // ---------- matches that are missed ----------

  // 1 to 10 at 1 and at MAX_DIST + 1, and 1 to 3 in between.
  function DistantWindow(): (r: seq<Byte>)
    ensures |r| == 2 * WSIZE + MAX_MATCH
  {
    seq(2 * WSIZE + MAX_MATCH, i requires 0 <= i =>
      if 1 <= i <= 10 then i else if 100 <= i <= 102 then i - 99 else if MAX_DIST + 1 <= i <= MAX_DIST + 10 then i - MAX_DIST else 0)
  }

  // A string at a distance of exactly MAX_DIST is missed unless it is the first of
  // its chain: ten bytes agree, and at most three are found.
  lemma MissedAtLimit(bits: nat, head: nat, len: nat, ms: nat, oldMs: nat)
    requires var win, s := DistantWindow(), MAX_DIST + 1;
             head == Latest(bits, win, s, HashAt(bits, win, s)) && Found(win, s, head, 2, len, ms, oldMs)
    ensures Agree(DistantWindow(), 1, MAX_DIST + 1, 10) && len <= 3
  {
    hide Latest, Found, NoMatch, HashAt;
    var win, s := DistantWindow(), MAX_DIST + 1;
    assert Agree(win, 100, s, 3);
    AgreeHash(bits, win, 100, s, 3);
    LatestIs(bits, win, s, HashAt(bits, win, s));
    if len > 3 {
      FoundAgrees(win, s, head, len, ms, oldMs);
    }
  }

  lemma FoundAgrees(win: seq<Byte>, s: nat, head: nat, len: nat, ms: nat, oldMs: nat)
    requires s + MAX_MATCH < |win| && Found(win, s, head, 2, len, ms, oldMs) && len > 3
    ensures Reached(s, head, ms) && win[ms] == win[s] && win[ms + 1] == win[s + 1] && win[ms + 2] == win[s + 2] &&
        win[ms + 3] == win[s + 3]
  {
    assert Agree(win, ms, s, len);
    assert win[ms + 1] == win[ms + 1 + (s - ms)] && win[ms + 2] == win[ms + 2 + (s - ms)] &&
        win[ms + 3] == win[ms + 3 + (s - ms)];
  }

  // 1 to 4 at 100 and at 10000, and 1 to 3 ten bytes before the latter.
  function EndWindow(): (r: seq<Byte>)
    ensures |r| == 2 * WSIZE + MAX_MATCH
  {
    seq(2 * WSIZE + MAX_MATCH, i requires 0 <= i =>
      if 100 <= i <= 103 then i - 99 else if 9990 <= i <= 9992 then i - 9989 else if 10000 <= i <= 10003 then i - 9999 else 0)
  }

  // With three bytes left, a match for all of them ten bytes back is given up when
  // the search comes to one far away that goes on behind the end.
  lemma MissedAtEnd(bits: nat, head: nat, found: nat, ms: nat, oldMs: nat)
    requires var win, s := EndWindow(), 10000;
             && Found(win, s, head, 2, found, ms, oldMs) && Considered(bits, win, s, head, MAX_CHAIN, 100)
             && (found < MAX_MATCH ==> NoneLonger(bits, win, s, head, MAX_CHAIN, found))
    ensures Agree(EndWindow(), 9990, 10000, 3) && Clipped(found, ms, 10000, 3) == 2
  {
    hide Found, NoMatch, HashAt, SameHash, NoneLonger, U32;
    var win, s := EndWindow(), 10000;
    assert Agree(win, 100, s, 4);
    FoundRange(win, s, head, 2, found, ms, oldMs);
    FoundAll(bits, win, s, head, MAX_CHAIN, found, 100, 4);
    FoundAgrees(win, s, head, found, ms, oldMs);
    assert ms == 100;
    SmallDist(s, ms);
  }
}
