/** The sliding window: reading ahead, the dictionary of strings, and the search
    for the longest match. */
module Window {
  import opened Arith
  import opened Bits
  import opened Hash
  import opened Chains
  import Crc

  const MIN_MATCH: nat := 3
  const MAX_MATCH: nat := 258
  const MIN_LOOKAHEAD: nat := MAX_MATCH + MIN_MATCH + 1
  const MAX_DIST: nat := WSIZE - MIN_LOOKAHEAD
  const TOO_FAR: nat := 4096
  const MAX_CHAIN: nat := 4096
  const GOOD_MATCH: nat := 32
  const NICE_MATCH: nat := 258

  // ---------- matches ----------

  // The strings at `p` and `s` agree on `k` bytes.
  ghost predicate Agree(win: seq<Byte>, p: nat, s: nat, k: nat)
    requires p <= s && s + k <= |win|
  {
    forall i :: p <= i < p + k ==> win[i] == win[i + (s - p)]
  }

  // The next byte, compared with the one at `s + k`, decides.
  lemma AgreeNext(win: seq<Byte>, p: nat, s: nat, k: nat)
    requires p <= s && s + k < |win| && Agree(win, p, s, k)
    ensures Agree(win, p, s, k + 1) <==> win[p + k] == win[s + k]
  {
    if Agree(win, p, s, k + 1) {
      assert win[p + k] == win[p + k + (s - p)];
    }
  }

  lemma AgreeHash(bits: nat, win: seq<Byte>, p: nat, s: nat, k: nat)
    requires p <= s && s + k <= |win| && k >= 3 && Agree(win, p, s, k)
    ensures HashAt(bits, win, p) == HashAt(bits, win, s)
  {
    hide Hash3;
    assert win[p + 1] == win[p + 1 + (s - p)] && win[p + 2] == win[p + 2 + (s - p)];
  }

  // It is not necessary to compare the third bytes.
  lemma AgreeThree(bits: nat, win: seq<Byte>, p: nat, s: nat)
    requires HashSize(bits) && p <= s && s + 3 <= |win| && HashAt(bits, win, p) == HashAt(bits, win, s)
    requires win[p] == win[s] && win[p + 1] == win[s + 1]
    ensures Agree(win, p, s, 3)
  {
    hide Hash3;
    ThirdByte(bits, win[p], win[p + 1], win[p + 2], win[s + 2]);
  }

  // No string between `p` and `s` with the hash of `s` agrees with it on `k` bytes.
  ghost predicate NoneLeft(bits: nat, win: seq<Byte>, p: nat, s: nat, k: nat)
    requires s + k <= |win| && s + 2 < |win|
  {
    forall q :: p < q < s && HashAt(bits, win, q) == HashAt(bits, win, s) ==> !Agree(win, q, s, k)
  }

  lemma NoneLeftMono(bits: nat, win: seq<Byte>, p: nat, s: nat, k: nat, k': nat)
    requires k <= k' && s + k' <= |win| && s + 2 < |win| && NoneLeft(bits, win, p, s, k)
    ensures NoneLeft(bits, win, p, s, k')
  {
    hide HashAt;
  }

  // The chain leads to the next candidate and leaves none out.
  lemma NoneBetween(bits: nat, win: seq<Byte>, cur: nat, next: nat, s: nat, k: nat)
    requires cur < s && s + k <= |win| && s + 2 < |win|
    requires NoneLeft(bits, win, cur, s, k) && !Agree(win, cur, s, k)
    requires HashAt(bits, win, cur) == HashAt(bits, win, s) && next == Latest(bits, win, cur, HashAt(bits, win, cur))
    ensures NoneLeft(bits, win, next, s, k)
    ensures next > 0 ==> next < cur && HashAt(bits, win, next) == HashAt(bits, win, s)
  {
    hide HashAt, Latest;
    LatestIs(bits, win, cur, HashAt(bits, win, cur));
  }

  // No string between `low` and `s` agrees with the one at `s` on `k` bytes.
  ghost predicate NoMatch(win: seq<Byte>, low: nat, s: nat, k: nat)
    requires s + k <= |win|
  {
    forall q :: low < q < s ==> !Agree(win, q, s, k)
  }

  // A chain that was searched to its end leaves no longer match.
  lemma NoneAtAll(bits: nat, win: seq<Byte>, p: nat, low: nat, s: nat, k: nat)
    requires s + k <= |win| && k >= 3 && p <= low && NoneLeft(bits, win, p, s, k)
    ensures NoMatch(win, low, s, k)
  {
    hide HashAt;
    forall q | low < q < s
      ensures !Agree(win, q, s, k)
    {
      if Agree(win, q, s, k) {
        AgreeHash(bits, win, q, s, k);
      }
    }
  }

  // ---------- what a comparison reads ----------

  // The first comparisons rule the candidate out.
  predicate RuledOut(win: seq<Byte>, cur: nat, s: nat, best: nat)
    requires cur < s && s + MAX_MATCH < |win| && 1 <= best < MAX_MATCH
  {
    win[cur + best] != win[s + best] || win[cur + best - 1] != win[s + best - 1]
    || win[cur] != win[s] || win[cur + 1] != win[s + 1]
  }

  // Where the comparison that starts at `k` ends.
  function ScanEnd(win: seq<Byte>, cur: nat, s: nat, k: nat): (r: nat)
    requires cur < s && s + MAX_MATCH < |win| && k <= MAX_MATCH
    ensures k <= r <= MAX_MATCH
    decreases MAX_MATCH - k
  {
    if k == MAX_MATCH || win[cur + k] != win[s + k] then k else ScanEnd(win, cur, s, k + 1)
  }

  // The largest index of the window that comparing with a candidate looks at,
  // the end of the best match so far included.
  function CompareTop(win: seq<Byte>, cur: nat, s: nat, best: nat): (r: nat)
    requires cur < s && s + MAX_MATCH < |win| && 1 <= best < MAX_MATCH
    ensures s + best <= r <= s + MAX_MATCH
  {
    var end := if RuledOut(win, cur, s, best) then best else ScanEnd(win, cur, s, 3);
    s + if end < best then best else end
  }

  lemma {:induction false} ScanPast(win: seq<Byte>, cur: nat, s: nat, k: nat, len: nat)
    requires cur < s && s + MAX_MATCH < |win| && k <= MAX_MATCH && len <= MAX_MATCH && Agree(win, cur, s, len)
    ensures ScanEnd(win, cur, s, k) >= len
    decreases MAX_MATCH - k
  {
    if k < len {
      assert win[cur + k] == win[cur + k + (s - cur)];
      ScanPast(win, cur, s, k + 1, len);
    }
  }

  // Measuring a match looks at the byte behind it, but never at more than
  // MAX_MATCH + 1 bytes.
  lemma TakenTop(win: seq<Byte>, cur: nat, s: nat, best: nat, len: nat)
    requires cur < s && s + MAX_MATCH < |win| && 1 <= best < len <= MAX_MATCH && Agree(win, cur, s, len)
    ensures s + len <= CompareTop(win, cur, s, best)
  {
    assert win[cur + 1] == win[cur + 1 + (s - cur)];
    assert win[cur + best] == win[cur + best + (s - cur)];
    assert win[cur + best - 1] == win[cur + best - 1 + (s - cur)];
    ScanPast(win, cur, s, 3, len);
  }

  // The condition in the disabled assertion of longest_match, made exact: no
  // comparison for the string at `s` can look behind the 2 * WSIZE bytes of the
  // window if and only if `s` is more than MAX_MATCH bytes from its end.
  lemma ReadsInside(s: nat)
    requires 1 <= s < 2 * WSIZE
    ensures (forall win: seq<Byte>, cur: nat, best: nat | |win| == 2 * WSIZE + MAX_MATCH && cur < s && 1 <= best < MAX_MATCH ::
               CompareTop(win, cur, s, best) < 2 * WSIZE)
            <==> s + MAX_MATCH < 2 * WSIZE
  {
    var win: seq<Byte> := seq(2 * WSIZE + MAX_MATCH, _ => 0);
    TakenTop(win, s - 1, s, 1, MAX_MATCH);
    assert CompareTop(win, s - 1, s, 1) == s + MAX_MATCH;
  }

  // Compare the strings at `cur` and `s`; `best` is the length to beat. `top` is
  // the largest index looked at.
  method CompareAt(window: array<Byte>, cur: nat, s: nat, best: nat, scanEnd1: Byte, scanEnd: Byte, ghost bits: nat)
    returns (len: nat, ghost top: nat)
    requires cur < s && s + MAX_MATCH < window.Length && 1 <= best < MAX_MATCH && HashSize(bits)
    requires scanEnd1 == window[s + best - 1] && scanEnd == window[s + best]
    requires HashAt(bits, window[..], cur) == HashAt(bits, window[..], s)
    ensures len <= MAX_MATCH
    ensures len > best ==> Agree(window[..], cur, s, len)
    ensures best < len < MAX_MATCH ==> !Agree(window[..], cur, s, len + 1)
    ensures len <= best ==> !Agree(window[..], cur, s, best + 1)
    ensures top == CompareTop(window[..], cur, s, best)
  {
    hide HashAt, ScanEnd;
    ghost var win := window[..];
    top := s + best;
    if window[cur + best] != scanEnd || window[cur + best - 1] != scanEnd1
       || window[cur] != window[s] || window[cur + 1] != window[s + 1] {
      Rejected(win, cur, s, best);
      return 0, top;
    }
    AgreeThree(bits, win, cur, s);
    var scan := 2;
    while true
      invariant 2 <= scan < MAX_MATCH && Agree(win, cur, s, scan + 1)
      invariant ScanEnd(win, cur, s, scan + 1) == ScanEnd(win, cur, s, 3)
      invariant top == if scan > 2 && scan > best then s + scan else s + best
      decreases MAX_MATCH - scan
    {
      scan := scan + 1;
      top := if s + scan > top then s + scan else top;
      ScanNext(win, cur, s, scan);
      AgreeNext(win, cur, s, scan);
      if window[s + scan] != window[cur + scan] {
        break;
      }
      // the end is only checked after every eighth comparison
      if (scan - 2) % 8 == 0 && scan >= MAX_MATCH {
        break;
      }
      AtEnd(scan);
    }
    len := scan;
    Measured(win, cur, s, len, best);
  }

  lemma ScanNext(win: seq<Byte>, cur: nat, s: nat, k: nat)
    requires cur < s && s + MAX_MATCH < |win| && k <= MAX_MATCH
    ensures ScanEnd(win, cur, s, k) == if k == MAX_MATCH || win[cur + k] != win[s + k] then k else ScanEnd(win, cur, s, k + 1)
  {
  }

  lemma AtEnd(scan: nat)
    requires 3 <= scan <= MAX_MATCH && !((scan - 2) % 8 == 0 && scan >= MAX_MATCH)
    ensures scan < MAX_MATCH
  {
  }

  lemma Rejected(win: seq<Byte>, cur: nat, s: nat, best: nat)
    requires cur <= s && s + best < |win| && 1 <= best
    requires win[cur + best] != win[s + best] || win[cur + best - 1] != win[s + best - 1]
             || win[cur] != win[s] || win[cur + 1] != win[s + 1]
    ensures !Agree(win, cur, s, best + 1)
  {
  }

  lemma Measured(win: seq<Byte>, cur: nat, s: nat, len: nat, best: nat)
    requires len <= MAX_MATCH && cur <= s && s + MAX_MATCH < |win|
    requires Agree(win, cur, s, len) && best < MAX_MATCH
    requires len < MAX_MATCH ==> !Agree(win, cur, s, len + 1)
    ensures len <= best ==> !Agree(win, cur, s, best + 1)
  {
  }

  // ---------- input ----------

  lemma SamePiece(b: seq<Byte>, off: nat, d: seq<Byte>, pos: nat, n: nat)
    requires off + n <= |b| && pos + n <= |d| && forall j :: off <= j < off + n ==> b[j] == d[pos + (j - off)]
    ensures b[off..off + n] == d[pos..pos + n]
  {
    var x, y := b[off..off + n], d[pos..pos + n];
    forall k | 0 <= k < n
      ensures x[k] == y[k]
    {
      assert x[k] == b[off + k];
    }
  }

  // The input file: `data` is what reads can deliver. `plan` says how: the size
  // of each read in turn, or a negative number for a read that fails. Where it
  // asks for nothing or for too much, and behind its end, it is only a hint.
  class Reader {
    const data: seq<Byte>
    const plan: seq<int>
    var calls: nat
    var pos: nat
    var isize: nat
    var crc: nat
    var failed: bool
    const table: seq<nat>

    ghost predicate Valid()
      reads this
    {
      pos <= |data| && isize == U32(pos) && Sums(crc, pos)
    }

    // The shift register has seen the first `n` bytes, and the table is filled.
    ghost predicate Sums(c: nat, n: nat)
    {
      n <= |data| && c == Crc.Register(Crc.ONES, data[..n]) && |table| == 256 &&
          forall i :: 0 <= i < 256 ==> table[i] == Crc.Shifts(i, 8)
    }

    // All bytes read so far.
    ghost function Text(): seq<Byte>
      reads this
      requires Valid()
    {
      data[..pos]
    }

    constructor (input: seq<Byte>, sizes: seq<int>)
      ensures Valid() && data == input && plan == sizes && calls == 0 && pos == 0 && !failed
    {
      var t := Crc.FillTable();
      data, plan, table := input, sizes, t;
      calls, pos, isize, crc, failed := 0, 0, 0, Crc.ONES, false;
    }

    // What the next read of at most `size` bytes returns: a positive number of
    // bytes, 0 only at the end of the file, or -1.
    function Planned(size: nat): (n: int)
      requires pos <= |data| && size >= 1
      reads this
      ensures -1 <= n <= size && n <= |data| - pos
      ensures n == 0 ==> pos == |data|
      ensures pos == |data| ==> n <= 0
    {
      var m := if size <= |data| - pos then size else |data| - pos;
      var wanted := if calls < |plan| then plan[calls] else m;
      if wanted < 0 then -1 else if m == 0 then 0 else if 1 <= wanted <= m then wanted else m
    }

    // updcrc, for the next `n` bytes.
    method UpdateCrc(buf: array<Byte>, off: nat, n: nat)
      requires pos + n <= |data| && off + n <= buf.Length && Sums(crc, pos)
      requires buf[off..off + n] == data[pos..pos + n]
      modifies this`crc
      ensures Sums(crc, pos + n)
    {
      hide Crc.Register, Crc.Shifts;
      Crc.RegisterConcat(Crc.ONES, data[..pos], data[pos..pos + n]);
      assert data[..pos] + data[pos..pos + n] == data[..pos + n];
      crc := Crc.UpdCrc(crc, buf, off, n, table);
    }

    // The number of bytes read, 0 at the end of the file, or -1.
    method FileRead(buf: array<Byte>, off: nat, size: nat) returns (n: int)
      requires Valid() && off + size <= buf.Length && size >= 1
      modifies this`calls, this`pos, this`isize, this`crc, this`failed, buf
      ensures Valid() && n == old(Planned(size)) && calls == old(calls) + 1
      ensures n == -1 ==> failed && pos == old(pos)
      ensures n >= 0 ==> failed == old(failed) && pos == old(pos) + n
      ensures n == 0 ==> pos == |data|
      ensures n >= 0 ==> buf[off..off + n] == data[old(pos)..pos]
      ensures forall j :: 0 <= j < buf.Length && (j < off || j >= off + n) ==> buf[j] == old(buf[j])
    {
      hide Sums;
      n := Planned(size);
      calls := calls + 1;
      if n == -1 {
        failed := true;
      } else {
        var i := 0;
        while i < n
          invariant 0 <= i <= n && pos == old(pos) && isize == old(isize) && crc == old(crc) && failed == old(failed)
          invariant calls == old(calls) + 1
          invariant forall j :: 0 <= j < buf.Length && (j < off || j >= off + i) ==> buf[j] == old(buf[j])
          invariant forall j :: off <= j < off + i ==> buf[j] == data[pos + (j - off)]
        {
          buf[off + i] := data[pos + i];
          i := i + 1;
        }
        U32Add(pos, n);
        SamePiece(buf[..], off, data, pos, n);
        assert buf[off..off + n] == buf[..][off..off + n];
        UpdateCrc(buf, off, n);
        pos := pos + n;
        isize := U32(isize + n);
      }
    }
  }
}
