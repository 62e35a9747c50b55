/** ct_tally and init_block: the buffers that hold the tokens of the current
    block, and the symbol frequencies. */
module Tally {
  import opened Arith
  import opened Bits
  import opened Rfc1951
  import opened Tables
  import opened Tokens
  import opened Codes

  // ---------- what the buffers hold ----------

  // The byte kept in l_buf: the literal, or the match length - 3.
  function Lc(t: Token): (r: Byte)
    requires ValidToken(t)
  {
    if t.Match? then t.length - 3 else t.b
  }

  function MatchCount(ts: seq<Token>): (r: nat)
    ensures r <= |ts|
  {
    if ts == [] then 0 else MatchCount(ts[..|ts| - 1]) + if ts[|ts| - 1].Match? then 1 else 0
  }

  function FlagBits(ts: seq<Token>): (r: seq<bool>)
    ensures |r| == |ts| && forall i :: 0 <= i < |ts| ==> r[i] == ts[i].Match?
  {
    seq(|ts|, i requires 0 <= i < |ts| => ts[i].Match?)
  }

  lemma MatchCountNext(ts: seq<Token>, n: nat)
    requires n < |ts|
    ensures MatchCount(ts[..n + 1]) == MatchCount(ts[..n]) + if ts[n].Match? then 1 else 0
  {
    assert ts[..n + 1][..n] == ts[..n];
  }

  lemma {:induction false} MatchCountMono(ts: seq<Token>, m: nat, n: nat)
    requires m <= n <= |ts|
    ensures MatchCount(ts[..m]) <= MatchCount(ts[..n])
    decreases n
  {
    if m < n {
      MatchCountMono(ts, m, n - 1);
      MatchCountNext(ts, n - 1);
    }
  }

  ghost predicate LitsStored(lBuf: seq<Byte>, ts: seq<Token>)
  {
    |ts| <= |lBuf| && ValidTokens(ts) && forall i :: 0 <= i < |ts| ==> lBuf[i] == Lc(ts[i])
  }

  ghost predicate DistsStored(dBuf: seq<nat>, ts: seq<Token>)
  {
    && MatchCount(ts) <= |dBuf|
    && (forall i :: 0 <= i < |ts| && ts[i].Match? ==>
          MatchCount(ts[..i]) < |dBuf| && dBuf[MatchCount(ts[..i])] == ts[i].dist - 1)
  }

  // Eight flags per byte; the tokens of the last, partial group are not included.
  ghost predicate FlagsStored(flagBuf: seq<nat>, ts: seq<Token>, groups: nat)
  {
    && 8 * groups <= |ts| && groups <= |flagBuf|
    && (forall k :: 0 <= k < groups ==> flagBuf[k] == FromBits(FlagBits(ts[8 * k..8 * k + 8])))
  }

  lemma LitsAppend(lBuf: seq<Byte>, ts: seq<Token>, t: Token)
    requires LitsStored(lBuf, ts) && |ts| < |lBuf| && ValidToken(t)
    ensures LitsStored(lBuf[|ts| := Lc(t)], ts + [t])
  {
  }

  ghost function WithDist(dBuf: seq<nat>, ts: seq<Token>, t: Token): (r: seq<nat>)
    requires t.Match? ==> MatchCount(ts) < |dBuf| && t.dist >= 1
    ensures |r| == |dBuf|
  {
    if t.Match? then
      var d: nat := t.dist - 1;
      dBuf[MatchCount(ts) := d]
    else dBuf
  }

  lemma DistsAppend(dBuf: seq<nat>, ts: seq<Token>, t: Token)
    requires DistsStored(dBuf, ts) && (t.Match? ==> MatchCount(ts) < |dBuf| && t.dist >= 1)
    ensures MatchCount(ts + [t]) == MatchCount(ts) + if t.Match? then 1 else 0
    ensures DistsStored(WithDist(dBuf, ts, t), ts + [t])
  {
    var ts' := ts + [t];
    assert ts'[..|ts|] == ts;
    forall i | 0 <= i < |ts'| && ts'[i].Match?
      ensures MatchCount(ts'[..i]) < |dBuf|
      ensures WithDist(dBuf, ts, t)[MatchCount(ts'[..i])] == ts'[i].dist - 1
    {
      assert ts'[..i] == ts[..i];
      if i < |ts| {
        MatchCountNext(ts, i);
        MatchCountMono(ts, i + 1, |ts|);
        assert ts[..|ts|] == ts;
      }
    }
  }

  lemma {:induction false} FromBitsSnoc(b: seq<bool>, x: bool)
    ensures FromBits(b + [x]) == FromBits(b) + if x then Pow2(|b|) else 0
    decreases |b|
  {
    if b == [] {
      assert [x][1..] == [];
    } else {
      assert (b + [x])[1..] == b[1..] + [x];
      FromBitsSnoc(b[1..], x);
    }
  }

  // The flags of the last group.
  ghost function OpenFlags(ts: seq<Token>, groups: nat): nat
    requires 8 * groups <= |ts|
  {
    FromBits(FlagBits(ts[8 * groups..]))
  }

  lemma FlagsAppend(ts: seq<Token>, groups: nat, t: Token)
    requires 8 * groups <= |ts|
    ensures OpenFlags(ts + [t], groups) == OpenFlags(ts, groups) + if t.Match? then Pow2(|ts| - 8 * groups) else 0
    ensures OpenFlags(ts, groups) < Pow2(|ts| - 8 * groups)
  {
    var open := ts[8 * groups..];
    assert (ts + [t])[8 * groups..] == open + [t];
    assert FlagBits(open + [t]) == FlagBits(open) + [t.Match?];
    FromBitsSnoc(FlagBits(open), t.Match?);
  }

  lemma FlagsSaved(flagBuf: seq<nat>, ts: seq<Token>, groups: nat)
    requires FlagsStored(flagBuf, ts, groups) && |ts| == 8 * groups + 8 && groups < |flagBuf|
    ensures FlagsStored(flagBuf[groups := OpenFlags(ts, groups)], ts, groups + 1)
    ensures OpenFlags(ts, groups + 1) == 0
  {
    assert ts[8 * groups..8 * groups + 8] == ts[8 * groups..];
    assert ts[8 * (groups + 1)..] == [];
    assert FlagBits([]) == [];
  }

  lemma FlagsStay(flagBuf: seq<nat>, ts: seq<Token>, groups: nat, t: Token)
    requires FlagsStored(flagBuf, ts, groups)
    ensures FlagsStored(flagBuf, ts + [t], groups)
  {
    forall k | 0 <= k < groups
      ensures flagBuf[k] == FromBits(FlagBits((ts + [t])[8 * k..8 * k + 8]))
    {
      assert (ts + [t])[8 * k..8 * k + 8] == ts[8 * k..8 * k + 8];
    }
  }

  // ---------- frequencies ----------

  function CountLit(ts: seq<Token>, s: nat): nat
    requires ValidTokens(ts)
  {
    if ts == [] then 0
    else CountLit(ts[..|ts| - 1], s) + if LitSym(ts[|ts| - 1]) == s then 1 else 0
  }

  function CountDist(ts: seq<Token>, d: nat): nat
    requires ValidTokens(ts)
  {
    if ts == [] then 0
    else
      var t := ts[|ts| - 1];
      CountDist(ts[..|ts| - 1], d) + if t.Match? && DistSym(t) == d then 1 else 0
  }

  lemma {:induction false} CountBounds(ts: seq<Token>, s: nat)
    requires ValidTokens(ts)
    ensures CountLit(ts, s) <= |ts| && CountDist(ts, s) <= |ts|
    decreases |ts|
  {
    if ts != [] {
      CountBounds(ts[..|ts| - 1], s);
    }
  }

  lemma CountAppend(ts: seq<Token>, t: Token, s: nat)
    requires ValidTokens(ts) && ValidToken(t)
    ensures ValidTokens(ts + [t])
    ensures CountLit(ts + [t], s) == CountLit(ts, s) + if LitSym(t) == s then 1 else 0
    ensures CountDist(ts + [t], s) == CountDist(ts, s) + if t.Match? && DistSym(t) == s then 1 else 0
  {
    assert (ts + [t])[..|ts|] == ts;
  }

  // The end-of-block code is always counted once.
  ghost predicate LitsCounted(lt: seq<CtData>, ts: seq<Token>)
    requires ValidTokens(ts)
  {
    |lt| >= 286 && forall s :: 0 <= s < 286 ==> lt[s].fc == CountLit(ts, s) + if s == END_BLOCK then 1 else 0
  }

  ghost predicate DistsCounted(dt: seq<CtData>, ts: seq<Token>)
    requires ValidTokens(ts)
  {
    |dt| >= 30 && forall d :: 0 <= d < 30 ==> dt[d].fc == CountDist(ts, d)
  }

  ghost function Increment(t: seq<CtData>, s: nat): seq<CtData>
    requires s < |t|
  {
    t[s := t[s].(fc := t[s].fc + 1)]
  }

  lemma LitsCountedAppend(lt: seq<CtData>, ts: seq<Token>, t: Token)
    requires ValidTokens(ts) && ValidToken(t) && LitsCounted(lt, ts)
    ensures ValidTokens(ts + [t]) && LitsCounted(Increment(lt, LitSym(t)), ts + [t])
    ensures lt[LitSym(t)].fc <= |ts| + 1
  {
    hide CountLit, LitSym;
    forall s | 0 <= s < 286
      ensures CountLit(ts, s) <= |ts|
      ensures CountLit(ts + [t], s) == CountLit(ts, s) + if LitSym(t) == s then 1 else 0
    {
      CountBounds(ts, s);
      CountAppend(ts, t, s);
    }
  }

  lemma DistsCountedAppend(dt: seq<CtData>, ts: seq<Token>, t: Token)
    requires ValidTokens(ts) && ValidToken(t) && DistsCounted(dt, ts)
    ensures ValidTokens(ts + [t])
    ensures DistsCounted(if t.Match? then Increment(dt, DistSym(t)) else dt, ts + [t])
    ensures t.Match? ==> dt[DistSym(t)].fc <= |ts|
  {
    hide CountDist, DistSym;
    forall s | 0 <= s < 30
      ensures CountDist(ts, s) <= |ts|
      ensures CountDist(ts + [t], s) == CountDist(ts, s) + if t.Match? && DistSym(t) == s then 1 else 0
    {
      CountBounds(ts, s);
      CountAppend(ts, t, s);
    }
  }

  // ---------- the token buffer ----------

  class TokenBuffer {
    const lBuf: array<Byte>
    const dBuf: array<nat>
    const flagBuf: array<nat>
    var lastLit: nat
    var lastDist: nat
    var lastFlags: nat
    var flags: nat
    var flagBit: nat
    ghost var tokens: seq<Token>

    ghost predicate Valid()
      reads this, lBuf, dBuf, flagBuf
    {
      && dBuf != flagBuf && 8 * flagBuf.Length <= lBuf.Length && flagBuf.Length <= 0x1000
      && lastLit == |tokens| < 8 * flagBuf.Length
      && lastDist == MatchCount(tokens)
      && lastFlags == lastLit / 8
      && LitsStored(lBuf[..], tokens)
      && DistsStored(dBuf[..], tokens)
      && FlagsStored(flagBuf[..], tokens, lastFlags)
      && flags == OpenFlags(tokens, lastFlags)
      && flagBit == Pow2(lastLit % 8)
    }

    // There is room for one more token.
    ghost predicate HasRoom()
      reads this
    {
      lastLit + 1 < 8 * flagBuf.Length && lastDist < dBuf.Length
    }

    constructor (litBufSize: nat, inBufSize: nat, distBufSize: nat)
      requires 0 < litBufSize <= inBufSize && litBufSize % 8 == 0 && litBufSize <= 0x8000
      ensures Valid() && tokens == []
      ensures fresh(lBuf) && fresh(dBuf) && fresh(flagBuf)
      ensures flagBuf.Length == litBufSize / 8 && dBuf.Length == distBufSize
    {
      lBuf := new Byte[inBufSize];
      dBuf := new nat[distBufSize];
      flagBuf := new nat[litBufSize / 8];
      lastLit, lastDist, lastFlags, flags, flagBit := 0, 0, 0, 0, 1;
      tokens := [];
      new;
      EmptyBuffers(lBuf[..], dBuf[..], flagBuf[..]);
    }

    // The buffer part of init_block.
    method Reset()
      requires Valid()
      modifies this
      ensures Valid() && tokens == []
    {
      lastLit, lastDist, lastFlags, flags, flagBit := 0, 0, 0, 0, 1;
      tokens := [];
      EmptyBuffers(lBuf[..], dBuf[..], flagBuf[..]);
    }

    // Everything but the grouping of the flags.
    ghost predicate Stored()
      reads this, lBuf, dBuf, flagBuf
    {
      && dBuf != flagBuf && 8 * flagBuf.Length <= lBuf.Length && flagBuf.Length <= 0x1000
      && lastLit == |tokens| < 8 * flagBuf.Length
      && lastDist == MatchCount(tokens)
      && LitsStored(lBuf[..], tokens)
      && DistsStored(dBuf[..], tokens)
      && 8 * lastFlags <= |tokens|
      && FlagsStored(flagBuf[..], tokens, lastFlags)
      && flags == OpenFlags(tokens, lastFlags)
    }

    // Keep one more token, and its flag among the open ones.
    method StoreItem(dist: nat, lc: Byte, ghost t: Token)
      requires Valid() && HasRoom()
      requires ValidToken(t) && lc == Lc(t) && dist == (if t.Match? then t.dist else 0)
      modifies this`lastLit, this`lastDist, this`flags, this`tokens, lBuf, dBuf
      ensures Stored() && tokens == old(tokens) + [t]
    {
      hide LitsStored, DistsStored, FlagsStored, OpenFlags, MatchCount, Pow2, Or;
      ghost var ts, lb, db := tokens, lBuf[..], dBuf[..];
      LitsRoom(lb, ts);
      LitsAppend(lb, ts, t);
      DistsAppend(db, ts, t);
      FlagsAppend(ts, lastFlags, t);
      FlagsStay(flagBuf[..], ts, lastFlags, t);
      OrPlace(flags, 1, lastLit % 8);
      lBuf[lastLit] := lc;
      lastLit := lastLit + 1;
      if dist != 0 {
        dBuf[lastDist] := dist - 1;
        lastDist := lastDist + 1;
        flags := Or(flags, flagBit);
      }
      tokens := ts + [t];
      assert lBuf[..] == lb[|ts| := Lc(t)];
      assert dBuf[..] == WithDist(db, ts, t);
    }

    // The buffer part of ct_tally: keep one more token.
    method Append(dist: nat, lc: Byte, ghost t: Token)
      requires Valid() && HasRoom()
      requires ValidToken(t) && lc == Lc(t) && dist == (if t.Match? then t.dist else 0)
      modifies this, lBuf, dBuf, flagBuf
      ensures Valid() && tokens == old(tokens) + [t]
    {
      hide LitsStored, DistsStored, FlagsStored, OpenFlags, MatchCount, Pow2, Or;
      StoreItem(dist, lc, t);
      NextBit(lastLit - 1);
      flagBit := flagBit * 2 % 256;
      if lastLit % 8 == 0 {
        SaveFlags();
      }
    }

    // Output the flags when they fill a byte.
    method SaveFlags()
      requires dBuf != flagBuf && |tokens| == lastLit == 8 * lastFlags + 8 && lastFlags < flagBuf.Length
      requires FlagsStored(flagBuf[..], tokens, lastFlags) && flags == OpenFlags(tokens, lastFlags)
      modifies this`lastFlags, this`flags, this`flagBit, flagBuf
      ensures lastFlags == old(lastFlags) + 1 && flagBit == 1
      ensures FlagsStored(flagBuf[..], tokens, lastFlags) && flags == OpenFlags(tokens, lastFlags)
    {
      FlagsSaved(flagBuf[..], tokens, lastFlags);
      ghost var fb := flagBuf[..];
      flagBuf[lastFlags] := flags;
      assert flagBuf[..] == fb[lastFlags := flags];
      lastFlags := lastFlags + 1;
      flags := 0;
      flagBit := 1;
    }

    // flush_block saves the flags of the last group before anything else.
    method SaveLastFlags()
      requires Valid()
      modifies flagBuf
      ensures Valid()
      ensures forall k :: 0 <= k <= lastFlags && 8 * k < |tokens| ==> flagBuf[k] == GroupFlags(tokens, k)
    {
      hide Pow2, LitsStored, DistsStored;
      ghost var fb := flagBuf[..];
      flagBuf[lastFlags] := flags;
      assert forall k :: 0 <= k < lastFlags ==> flagBuf[k] == fb[k];
      forall k | 0 <= k <= lastFlags && 8 * k < |tokens|
        ensures flagBuf[k] == GroupFlags(tokens, k)
      {
        if k == lastFlags {
          assert tokens[8 * k..GroupEnd(tokens, k)] == tokens[8 * k..];
        }
      }
    }
  }

  // Where the k-th group of eight tokens ends.
  function GroupEnd(ts: seq<Token>, k: nat): nat
  {
    if 8 * k + 8 <= |ts| then 8 * k + 8 else |ts|
  }

  ghost function GroupFlags(ts: seq<Token>, k: nat): nat
    requires 8 * k <= |ts|
  {
    FromBits(FlagBits(ts[8 * k..GroupEnd(ts, k)]))
  }

  lemma EmptyBuffers(lBuf: seq<Byte>, dBuf: seq<nat>, flagBuf: seq<nat>)
    ensures LitsStored(lBuf, []) && DistsStored(dBuf, []) && FlagsStored(flagBuf, [], 0)
    ensures MatchCount([]) == 0 && OpenFlags([], 0) == 0 && Pow2(0) == 1
  {
    assert FlagBits([]) == [];
  }

  lemma LitsRoom(lBuf: seq<Byte>, ts: seq<Token>)
    requires LitsStored(lBuf, ts)
    ensures |ts| <= |lBuf| && ValidTokens(ts)
  {
  }

  lemma NextBit(n: nat)
    ensures (n + 1) % 8 != 0 ==> Pow2(n % 8) * 2 % 256 == Pow2((n + 1) % 8)
    ensures (n + 1) % 8 == 0 ==> Pow2((n + 1) % 8) == 1
  {
    Pow2Values();
  }
}
