/** Integer facts shared by the whole project: powers of two, the C unsigned
    widths, and finite sums over sets of naturals. */
module Arith {

  function Pow2(n: nat): (r: nat)
    ensures r >= 1
  {
    if n == 0 then 1 else 2 * Pow2(n - 1)
  }

  lemma Pow2Add(a: nat, b: nat)
    ensures Pow2(a + b) == Pow2(a) * Pow2(b)
  {
    if a != 0 {
      Pow2Add(a - 1, b);
      assert Pow2(a + b) == 2 * Pow2(a - 1 + b);
    }
  }

  lemma Pow2Next(n: nat)
    ensures Pow2(n + 1) == 2 * Pow2(n)
  {
  }

  lemma Pow2Mono(a: nat, b: nat)
    requires a <= b
    ensures Pow2(a) <= Pow2(b)
  {
    if a < b {
      Pow2Mono(a, b - 1);
    }
  }

  lemma Pow2Values()
    ensures Pow2(0) == 1 && Pow2(1) == 2 && Pow2(2) == 4 && Pow2(3) == 8 && Pow2(4) == 16
    ensures Pow2(5) == 32 && Pow2(6) == 64 && Pow2(7) == 128 && Pow2(8) == 256 && Pow2(9) == 512
    ensures Pow2(10) == 1024 && Pow2(11) == 2048 && Pow2(12) == 4096 && Pow2(13) == 8192
    ensures Pow2(14) == 16384 && Pow2(15) == 32768 && Pow2(16) == 65536
  {
    assert Pow2(4) == 16;
    assert Pow2(8) == 256;
    assert Pow2(12) == 4096;
  }

  // C unsigned arithmetic: `ush` is 16 bits wide, `ulg` and `unsigned` 32.
  function U16(x: int): (r: nat)
    ensures r < 0x1_0000
  {
    x % 0x1_0000
  }

  function U32(x: int): (r: nat)
    ensures r < 0x1_0000_0000
  {
    x % 0x1_0000_0000
  }

  lemma U32Add(x: int, y: int)
    ensures U32(U32(x) + y) == U32(x + y)
  {
    var q := x / 0x1_0000_0000;
    assert x + y == U32(x) + y + q * 0x1_0000_0000;
    ModShift(U32(x) + y, q, 0x1_0000_0000);
  }

  lemma ModShift(x: int, q: int, m: int)
    requires m > 0
    ensures (x + q * m) % m == x % m
  {
    ModUnique(x + q * m, m, q + x / m, x % m);
  }

  lemma ModUnique(x: int, m: int, q: int, r: int)
    requires m > 0 && 0 <= r < m
    requires x == q * m + r
    ensures x / m == q && x % m == r
  {
    var d := x / m - q;
    assert (x / m) * m - q * m == d * m;
    MulSmall(d, m, r - x % m);
  }

  lemma MulSmall(d: int, m: int, e: int)
    requires m > 0 && -m < e < m
    requires d * m == e
    ensures d == 0
  {
    if d >= 1 {
      MulMono(1, d, m);
    } else if d <= -1 {
      MulMono(d, -1, m);
    }
  }

  lemma MulMono(a: int, b: int, m: int)
    requires a <= b && m >= 0
    ensures a * m <= b * m
  {
  }

  // ---------- sums over finite sets ----------

  ghost function SumSet(s: set<nat>, g: nat -> int): int
    decreases |s|
  {
    if s == {} then 0 else
      var x :| x in s;
      g(x) + SumSet(s - {x}, g)
  }

  // The sum does not depend on the order in which elements are taken.
  lemma {:induction false} SumSetRemove(s: set<nat>, x: nat, g: nat -> int)
    requires x in s
    ensures SumSet(s, g) == g(x) + SumSet(s - {x}, g)
    decreases |s|
  {
    var y :| y in s && SumSet(s, g) == g(y) + SumSet(s - {y}, g);
    if y != x {
      SumSetRemove(s - {y}, x, g);
      SumSetRemove(s - {x}, y, g);
      assert s - {y} - {x} == s - {x} - {y};
    }
  }

  lemma SumSetAdd(s: set<nat>, x: nat, g: nat -> int)
    requires x !in s
    ensures SumSet(s + {x}, g) == SumSet(s, g) + g(x)
  {
    SumSetRemove(s + {x}, x, g);
    assert s + {x} - {x} == s;
  }

  lemma {:induction false} SumSetUnion(s: set<nat>, t: set<nat>, g: nat -> int)
    requires s !! t
    ensures SumSet(s + t, g) == SumSet(s, g) + SumSet(t, g)
    decreases |s|
  {
    if s == {} {
      assert s + t == t;
    } else {
      var x :| x in s;
      SumSetRemove(s, x, g);
      SumSetRemove(s + t, x, g);
      assert s + t - {x} == (s - {x}) + t;
      SumSetUnion(s - {x}, t, g);
    }
  }

  lemma {:induction false} SumSetCongruent(s: set<nat>, g: nat -> int, h: nat -> int)
    requires forall x :: x in s ==> g(x) == h(x)
    ensures SumSet(s, g) == SumSet(s, h)
    decreases |s|
  {
    if s != {} {
      var x :| x in s;
      SumSetRemove(s, x, g);
      SumSetRemove(s, x, h);
      SumSetCongruent(s - {x}, g, h);
    }
  }

  lemma {:induction false} SumSetSubset(s: set<nat>, t: set<nat>, g: nat -> int)
    requires s <= t
    requires forall x :: x in t ==> g(x) >= 0
    ensures 0 <= SumSet(s, g) <= SumSet(t, g)
  {
    SumSetUnion(s, t - s, g);
    assert s + (t - s) == t;
    SumSetNonneg(s, g);
    SumSetNonneg(t - s, g);
  }

  lemma {:induction false} SumSetNonneg(s: set<nat>, g: nat -> int)
    requires forall x :: x in s ==> g(x) >= 0
    ensures SumSet(s, g) >= 0
    decreases |s|
  {
    if s != {} {
      var x :| x in s;
      SumSetRemove(s, x, g);
      SumSetNonneg(s - {x}, g);
    }
  }
}
