/** The hash chains: `head` and `prev` against a plain search through the
    window for the latest earlier string with a given hash. */
module Chains {
  import opened Arith
  import opened Bits
  import opened Hash

  const WSIZE: nat := 0x8000

  function HashAt(bits: nat, win: seq<Byte>, p: nat): (r: nat)
    requires p + 2 < |win|
    ensures r < Pow2(bits)
  {
    Hash3(bits, win[p], win[p + 1], win[p + 2])
  }

  // The latest position before `n` with hash `h`, or 0. Position 0 is never found.
  function Latest(bits: nat, win: seq<Byte>, n: nat, h: nat): (r: nat)
    requires n + 1 < |win|
    ensures r == 0 || r < n
  {
    if n <= 1 then 0
    else if HashAt(bits, win, n - 1) == h then n - 1
    else Latest(bits, win, n - 1, h)
  }

  lemma {:induction false} LatestIs(bits: nat, win: seq<Byte>, n: nat, h: nat)
    requires n + 1 < |win|
    ensures var r := Latest(bits, win, n, h);
            (r > 0 ==> HashAt(bits, win, r) == h) && (forall q :: r < q < n ==> HashAt(bits, win, q) != h)
    decreases n
  {
    hide HashAt;
    if n > 1 {
      LatestIs(bits, win, n - 1, h);
    }
  }

  lemma {:induction false} LatestSame(bits: nat, win: seq<Byte>, win': seq<Byte>, n: nat, h: nat)
    requires n + 1 < |win| && n + 1 < |win'| && forall i :: 0 <= i <= n + 1 ==> win'[i] == win[i]
    ensures Latest(bits, win', n, h) == Latest(bits, win, n, h)
    decreases n
  {
    hide Hash3;
    if n > 1 {
      LatestSame(bits, win, win', n - 1, h);
    }
  }

  function Slid(p: nat): nat
  {
    if p >= WSIZE then p - WSIZE else 0
  }

  // Moving the window down moves the positions with it.
  lemma {:induction false} LatestSlides(bits: nat, win: seq<Byte>, win': seq<Byte>, n: nat, h: nat)
    requires WSIZE <= n && n + 1 < |win| && n - WSIZE + 1 < |win'|
    requires forall i :: 0 <= i <= n - WSIZE + 1 ==> win'[i] == win[i + WSIZE]
    ensures Latest(bits, win', n - WSIZE, h) == Slid(Latest(bits, win, n, h))
    decreases n
  {
    hide Hash3;
    if n > WSIZE {
      LatestSlides(bits, win, win', n - 1, h);
      if n > WSIZE + 1 {
        assert HashAt(bits, win', n - 1 - WSIZE) == HashAt(bits, win, n - 1);
      }
    }
  }

  // `prev` holds a link for each of the last WSIZE positions.
  predicate Linked(p: int, n: nat)
  {
    0 <= p < n && n - WSIZE <= p
  }

  // All strings that start before `n` are in the dictionary: each chain goes
  // through exactly the strings with that hash, latest first.
  ghost predicate Indexed(bits: nat, head: seq<nat>, prev: seq<nat>, win: seq<Byte>, n: nat)
  {
    && |head| == Pow2(bits) && |prev| == WSIZE && n + 1 < |win|
    && (forall h :: 0 <= h < |head| ==> head[h] == Latest(bits, win, n, h))
    && (forall p :: Linked(p, n) ==> prev[p % WSIZE] == Latest(bits, win, p, HashAt(bits, win, p)))
  }

  lemma IndexEmpty(bits: nat, head: seq<nat>, prev: seq<nat>, win: seq<Byte>)
    requires |head| == Pow2(bits) && |prev| == WSIZE && 1 < |win| && forall h :: 0 <= h < |head| ==> head[h] == 0
    ensures Indexed(bits, head, prev, win, 0)
  {
  }

  lemma LatestNext(bits: nat, win: seq<Byte>, n: nat, h: nat)
    requires n + 2 < |win|
    ensures Latest(bits, win, n + 1, h) == if HashAt(bits, win, n) == h then n else Latest(bits, win, n, h)
  {
    hide HashAt;
  }

  lemma OtherSlot(p: nat, n: nat)
    requires Linked(p, n + 1) && p != n
    ensures p % WSIZE != n % WSIZE && Linked(p, n)
  {
  }

  lemma IndexInsert(bits: nat, head: seq<nat>, prev: seq<nat>, win: seq<Byte>, n: nat, h: nat)
    requires Indexed(bits, head, prev, win, n) && n + 2 < |win| && h == HashAt(bits, win, n)
    ensures h < |head|
    ensures Indexed(bits, head[h := n], prev[n % WSIZE := head[h]], win, n + 1)
  {
    hide HashAt, Latest, Pow2;
    var head', prev' := head[h := n], prev[n % WSIZE := head[h]];
    forall g | 0 <= g < |head'|
      ensures head'[g] == Latest(bits, win, n + 1, g)
    {
      LatestNext(bits, win, n, g);
    }
    forall p | Linked(p, n + 1)
      ensures prev'[p % WSIZE] == Latest(bits, win, p, HashAt(bits, win, p))
    {
      if p != n {
        OtherSlot(p, n);
      }
    }
  }

  // Bytes that arrive behind the strings change nothing.
  lemma IndexExtend(bits: nat, head: seq<nat>, prev: seq<nat>, win: seq<Byte>, win': seq<Byte>, n: nat)
    requires Indexed(bits, head, prev, win, n) && |win'| == |win|
    requires forall i :: 0 <= i <= n + 1 ==> win'[i] == win[i]
    ensures Indexed(bits, head, prev, win', n)
  {
    hide HashAt, Latest, Pow2;
    forall h | 0 <= h < |head|
      ensures head[h] == Latest(bits, win', n, h)
    {
      LatestSame(bits, win, win', n, h);
    }
    forall p | Linked(p, n)
      ensures prev[p % WSIZE] == Latest(bits, win', p, HashAt(bits, win', p))
    {
      HashSame(bits, win, p, win', p);
      LatestSame(bits, win, win', p, HashAt(bits, win, p));
    }
  }

  lemma HashSame(bits: nat, win: seq<Byte>, p: nat, win': seq<Byte>, q: nat)
    requires p + 2 < |win| && q + 2 < |win'|
    requires win[p] == win'[q] && win[p + 1] == win'[q + 1] && win[p + 2] == win'[q + 2]
    ensures HashAt(bits, win, p) == HashAt(bits, win', q)
  {
  }

  ghost function SlidSeq(s: seq<nat>): (r: seq<nat>)
    ensures |r| == |s| && forall i :: 0 <= i < |s| ==> r[i] == Slid(s[i])
  {
    seq(|s|, i requires 0 <= i < |s| => Slid(s[i]))
  }

  // fill_window moves the upper half of the window to the lower half.
  lemma IndexSlide(bits: nat, head: seq<nat>, prev: seq<nat>, win: seq<Byte>, win': seq<Byte>, n: nat)
    requires Indexed(bits, head, prev, win, n) && WSIZE <= n <= 2 * WSIZE && n - WSIZE + 1 < |win'|
    requires forall i :: 0 <= i <= n - WSIZE + 1 ==> win'[i] == win[i + WSIZE]
    ensures Indexed(bits, SlidSeq(head), SlidSeq(prev), win', n - WSIZE)
  {
    hide HashAt, Latest, Pow2, Slid;
    forall h | 0 <= h < |head|
      ensures SlidSeq(head)[h] == Latest(bits, win', n - WSIZE, h)
    {
      LatestSlides(bits, win, win', n, h);
    }
    forall p | Linked(p, n - WSIZE)
      ensures SlidSeq(prev)[p % WSIZE] == Latest(bits, win', p, HashAt(bits, win', p))
    {
      assert Linked(p + WSIZE, n) && (p + WSIZE) % WSIZE == p % WSIZE;
      HashSame(bits, win, p + WSIZE, win', p);
      LatestSlides(bits, win, win', p + WSIZE, HashAt(bits, win', p));
    }
  }
}
