/** Counts of codes per length, the code space they take, and the totals that
    gen_bitlen keeps while it goes through the nodes. */
module LengthCounts {
  import opened Arith
  import opened Codes
  import opened Rfc1951
  import opened Canonical
  import opened Optimal

  // ---------- counts ----------

  // Code space of `c[1..b]` codes, in units of 2^-b.
  function CountsKraft(c: seq<nat>, b: nat): nat
    requires b < |c|
  {
    if b == 0 then 0 else 2 * CountsKraft(c, b - 1) + c[b]
  }

  function CountsTotal(c: seq<nat>, b: nat): nat
    requires b < |c|
  {
    if b == 0 then 0 else CountsTotal(c, b - 1) + c[b]
  }

  lemma {:induction false} KraftUpdate(c: seq<nat>, l: nat, v: nat, b: nat)
    requires 1 <= l < |c| && b < |c|
    ensures CountsTotal(c[l := v], b) == CountsTotal(c, b) + (if l <= b then v - c[l] else 0)
    ensures CountsKraft(c[l := v], b) == CountsKraft(c, b) + (if l <= b then (v - c[l]) * Pow2(b - l) else 0)
    decreases b
  {
    if b != 0 {
      KraftUpdate(c, l, v, b - 1);
      if l < b {
        assert Pow2(b - l) == 2 * Pow2(b - 1 - l);
        TwiceProduct(v - c[l], Pow2(b - 1 - l));
      }
    }
  }

  lemma TwiceProduct(x: int, p: nat)
    ensures x * (2 * p) == 2 * (x * p)
  {
  }

  // If no code is shorter than `b`, the space taken is the number of codes.
  lemma {:induction false} NothingShorter(c: seq<nat>, b: nat)
    requires 1 <= b < |c| && forall k :: 1 <= k < b ==> c[k] == 0
    ensures CountsKraft(c, b) == c[b] && CountsTotal(c, b) == c[b]
    decreases b
  {
    if b > 1 {
      NothingShorter(c, b - 1);
    }
  }

  // ---------- sums over symbols ----------

  ghost function CountFn(l: nat -> nat, b: nat): nat -> int
  {
    (x: nat) => if l(x) == b then 1 else 0
  }

  // Bits spent on a symbol with its extra bits, over all its occurrences.
  ghost function BitsFn(f: nat -> nat, l: nat -> nat, xb: nat -> nat): nat -> int
  {
    (x: nat) => f(x) * (l(x) + xb(x))
  }

  ghost function DlOf(t: seq<CtData>): nat -> nat
  {
    (x: nat) => if x < |t| then t[x].dl else 0
  }

  // `c` counts the symbols of `s` by length.
  ghost predicate Counted(s: set<nat>, l: nat -> nat, c: seq<nat>)
  {
    forall b :: 0 <= b < |c| ==> c[b] == SumSet(s, CountFn(l, b))
  }

  ghost predicate Between(s: set<nat>, l: nat -> nat, lo: nat, hi: nat)
  {
    forall x :: x in s ==> lo <= l(x) <= hi
  }

  lemma CountedEmpty(l: nat -> nat, c: seq<nat>)
    requires forall b :: 0 <= b < |c| ==> c[b] == 0
    ensures Counted({}, l, c)
  {
  }

  lemma CountedAdd(s: set<nat>, l: nat -> nat, c: seq<nat>, x: nat)
    requires Counted(s, l, c) && x !in s && l(x) < |c|
    ensures Counted(s + {x}, l, c[l(x) := c[l(x)] + 1])
  {
    hide SumSet;
    forall b | 0 <= b < |c|
      ensures c[l(x) := c[l(x)] + 1][b] == SumSet(s + {x}, CountFn(l, b))
    {
      SumSetAdd(s, x, CountFn(l, b));
    }
  }

  lemma CountedRemove(s: set<nat>, l: nat -> nat, c: seq<nat>, x: nat)
    requires Counted(s, l, c) && x in s && l(x) < |c|
    ensures c[l(x)] >= 1 && Counted(s - {x}, l, c[l(x) := c[l(x)] - 1])
  {
    hide SumSet;
    forall b | 0 <= b < |c|
      ensures b == l(x) ==> c[b] >= 1
      ensures b == l(x) ==> c[b] - 1 == SumSet(s - {x}, CountFn(l, b))
      ensures b != l(x) ==> c[b] == SumSet(s - {x}, CountFn(l, b))
    {
      SumSetRemove(s, x, CountFn(l, b));
      SumSetNonneg(s - {x}, CountFn(l, b));
    }
  }

  lemma CountedSame(s: set<nat>, l: nat -> nat, l': nat -> nat, c: seq<nat>)
    requires Counted(s, l, c) && forall x :: x in s ==> l(x) == l'(x)
    ensures Counted(s, l', c)
  {
    hide SumSet;
    forall b | 0 <= b < |c|
      ensures c[b] == SumSet(s, CountFn(l', b))
    {
      SumSetCongruent(s, CountFn(l, b), CountFn(l', b));
    }
  }

  // Counts determine the space and the number of codes.
  lemma {:induction false} CountedTotals(s: set<nat>, l: nat -> nat, c: seq<nat>, top: nat)
    requires Counted(s, l, c) && Between(s, l, 1, top) && top < |c|
    ensures CountsKraft(c, top) == Space(s, l, top)
    ensures CountsTotal(c, top) == |s|
    decreases |s|
  {
    hide SumSet, Counted, Space, Room;
    if s == {} {
      CountedNone(l, c);
      ZeroCounts(c, top);
      EmptySpace(l, top);
    } else {
      var x :| x in s;
      CountedRemove(s, l, c, x);
      var c' := c[l(x) := c[l(x)] - 1];
      CountedTotals(s - {x}, l, c', top);
      KraftUpdate(c, l(x), c[l(x)] - 1, top);
      TakeOut(s, l, l, top, x);
      assert Room(l(x), top) == Pow2(top - l(x)) by { RoomIs(l(x), top); }
    }
  }

  lemma RoomIs(len: nat, top: nat)
    requires len <= top
    ensures Room(len, top) == Pow2(top - len)
  {
  }

  lemma CountedNone(l: nat -> nat, c: seq<nat>)
    requires Counted({}, l, c)
    ensures forall b :: 0 <= b < |c| ==> c[b] == 0
  {
  }

  lemma {:induction false} ZeroCounts(c: seq<nat>, b: nat)
    requires b < |c| && forall k :: 0 <= k < |c| ==> c[k] == 0
    ensures CountsKraft(c, b) == 0 && CountsTotal(c, b) == 0
    decreases b
  {
    if b != 0 {
      ZeroCounts(c, b - 1);
    }
  }

  // ---------- as a sequence of lengths ----------

  // `s` holds at least the coded symbols among the first |lens|.
  lemma {:induction false} CountIsSum(lens: seq<nat>, s: set<nat>, l: nat -> nat, b: nat)
    requires b > 0
    requires forall x :: x in s ==> x < |lens|
    requires forall x :: 0 <= x < |lens| ==> lens[x] == if x in s then l(x) else 0
    ensures Count(lens, b) == SumSet(s, CountFn(l, b))
    decreases |lens|
  {
    hide SumSet;
    if lens == [] {
      assert s == {};
      assert SumSet({}, CountFn(l, b)) == 0 by { SumEmpty(CountFn(l, b)); }
    } else {
      var n := |lens| - 1;
      CountIsSum(lens[..n], s - {n}, l, b);
      if n in s {
        SumSetRemove(s, n, CountFn(l, b));
      } else {
        assert s - {n} == s;
      }
    }
  }

  lemma SumEmpty(g: nat -> int)
    ensures SumSet({}, g) == 0
  {
  }

  lemma {:induction false} KraftIsSpace(lens: seq<nat>, s: set<nat>, l: nat -> nat, top: nat)
    requires forall x :: x in s ==> x < |lens| && 0 < l(x) <= top
    requires forall x :: 0 <= x < |lens| ==> lens[x] == if x in s then l(x) else 0
    ensures Kraft(lens, top) == Space(s, l, top)
    decreases |lens|
  {
    hide Space, Room;
    if lens == [] {
      assert s == {};
      EmptySpace(l, top);
    } else {
      var n := |lens| - 1;
      KraftIsSpace(lens[..n], s - {n}, l, top);
      if n in s {
        TakeOut(s, l, l, top, n);
        RoomIs(l(n), top);
      } else {
        assert s - {n} == s;
      }
    }
  }
}
