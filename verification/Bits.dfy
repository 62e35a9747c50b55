/** Bit strings. A stream is a `seq<bool>`; section 3.1.1 of RFC 1951 packs
    integers starting at the least significant bit and Huffman codes starting
    at the most significant bit of the code. */
module Bits {
  import opened Arith

  type Byte = x: nat | x < 256

  lemma ConcatAssoc<T>(a: seq<T>, b: seq<T>, c: seq<T>)
    ensures (a + b) + c == a + (b + c)
  {
  }

  // ---------- integers, least significant bit first ----------

  function ToBits(v: nat, n: nat): (r: seq<bool>)
    ensures |r| == n
    decreases n
  {
    if n == 0 then [] else [v % 2 == 1] + ToBits(v / 2, n - 1)
  }

  function FromBits(b: seq<bool>): (r: nat)
    ensures r < Pow2(|b|)
  {
    if b == [] then 0 else (if b[0] then 1 else 0) + 2 * FromBits(b[1..])
  }

  lemma {:induction false} FromToBits(v: nat, n: nat)
    requires v < Pow2(n)
    ensures FromBits(ToBits(v, n)) == v
    decreases n
  {
    if n != 0 {
      FromToBits(v / 2, n - 1);
      assert ToBits(v, n)[1..] == ToBits(v / 2, n - 1);
    }
  }

  lemma DivDiv(v: nat, k: nat)
    requires k > 0
    ensures (v / 2) / Pow2(k - 1) == v / Pow2(k)
  {
    var p := Pow2(k - 1);
    var q := (v / 2) / p;
    var r := (v / 2) % p;
    assert v / 2 == q * p + r;
    assert v == 2 * (q * p + r) + v % 2;
    assert v == q * (2 * p) + (2 * r + v % 2);
    ModUnique(v, 2 * p, q, 2 * r + v % 2);
  }

  // Only the low `n` bits matter.
  lemma {:induction false} ToBitsLow(v: nat, w: nat, n: nat)
    ensures ToBits(v + w * Pow2(n), n) == ToBits(v, n)
    decreases n
  {
    if n != 0 {
      var p := Pow2(n - 1);
      assert w * Pow2(n) == 2 * (w * p);
      assert (v + w * Pow2(n)) % 2 == v % 2;
      assert (v + w * Pow2(n)) / 2 == v / 2 + w * p;
      ToBitsLow(v / 2, w, n - 1);
    }
  }

  // Placing `b` above the low `k` bits of `a`.
  lemma {:induction false} ToBitsPlace(a: nat, k: nat, b: nat, m: nat)
    requires a < Pow2(k)
    ensures ToBits(a + b * Pow2(k), k + m) == ToBits(a, k) + ToBits(b, m)
    decreases k
  {
    if k != 0 {
      var v := a + b * Pow2(k);
      var p := Pow2(k - 1);
      assert b * Pow2(k) == 2 * (b * p);
      assert v % 2 == a % 2 && v / 2 == a / 2 + b * p;
      ToBitsPlace(a / 2, k - 1, b, m);
      PlaceStep(v, a, k, b, m);
    }
  }

  lemma PlaceStep(v: nat, a: nat, k: nat, b: nat, m: nat)
    requires k > 0 && v % 2 == a % 2
    requires ToBits(v / 2, (k - 1) + m) == ToBits(a / 2, k - 1) + ToBits(b, m)
    ensures ToBits(v, k + m) == ToBits(a, k) + ToBits(b, m)
  {
    ConcatAssoc([a % 2 == 1], ToBits(a / 2, k - 1), ToBits(b, m));
  }

  // ---------- Huffman codes, most significant bit first ----------

  function MsbBits(v: nat, n: nat): (r: seq<bool>)
    ensures |r| == n
    decreases n
  {
    if n == 0 then [] else MsbBits(v / 2, n - 1) + [v % 2 == 1]
  }

  lemma {:induction false} MsbPrefix(v: nat, n: nat, k: nat)
    requires k <= n
    ensures MsbBits(v, n)[..k] == MsbBits(v / Pow2(n - k), k)
    decreases n
  {
    if k == n {
      assert v / Pow2(0) == v;
      assert MsbBits(v, n)[..n] == MsbBits(v, n);
    } else {
      MsbPrefix(v / 2, n - 1, k);
      DivDiv(v, n - k);
      assert MsbBits(v, n)[..k] == MsbBits(v / 2, n - 1)[..k];
    }
  }

  lemma {:induction false} MsbInjective(v: nat, w: nat, n: nat)
    requires v < Pow2(n) && w < Pow2(n)
    requires MsbBits(v, n) == MsbBits(w, n)
    ensures v == w
    decreases n
  {
    if n != 0 {
      var a, b := MsbBits(v, n), MsbBits(w, n);
      assert a[..n - 1] == MsbBits(v / 2, n - 1) && b[..n - 1] == MsbBits(w / 2, n - 1);
      MsbInjective(v / 2, w / 2, n - 1);
      assert a[n - 1] == b[n - 1];
    }
  }

  // ---------- bytes ----------

  function BytesBits(bytes: seq<Byte>): (r: seq<bool>)
    ensures |r| == 8 * |bytes|
  {
    if bytes == [] then [] else BytesBits(bytes[..|bytes| - 1]) + ToBits(bytes[|bytes| - 1], 8)
  }

  lemma {:induction false} BytesBitsConcat(a: seq<Byte>, b: seq<Byte>)
    ensures BytesBits(a + b) == BytesBits(a) + BytesBits(b)
    decreases |b|
  {
    if b == [] {
      assert a + b == a;
    } else {
      var b' := b[..|b| - 1];
      var last := ToBits(b[|b| - 1], 8);
      assert (a + b)[..|a + b| - 1] == a + b' && (a + b)[|a + b| - 1] == b[|b| - 1];
      calc {
        BytesBits(a + b);
        BytesBits(a + b') + last;
        { BytesBitsConcat(a, b'); }
        (BytesBits(a) + BytesBits(b')) + last;
        { ConcatAssoc(BytesBits(a), BytesBits(b'), last); }
        BytesBits(a) + BytesBits(b);
      }
    }
  }

  // ---------- occurrences in a stream ----------

  // The bits `x` stand at position `p` of the stream `s`.
  predicate At(s: seq<bool>, p: nat, x: seq<bool>)
  {
    p + |x| <= |s| && s[p..p + |x|] == x
  }

  lemma AtConcat(s: seq<bool>, p: nat, x: seq<bool>, y: seq<bool>)
    ensures At(s, p, x + y) <==> At(s, p, x) && At(s, p + |x|, y)
  {
    if p + |x + y| <= |s| {
      var m := p + |x|;
      var e := p + |x + y|;
      assert s[p..e][..|x|] == s[p..m];
      assert s[p..e][|x|..] == s[m..e];
      assert (x + y)[..|x|] == x && (x + y)[|x|..] == y;
      assert s[p..e] == s[p..m] + s[m..e];
    }
  }

  // ---------- bitwise operators on naturals ----------

  function Or(a: nat, b: nat): nat
    decreases a + b
  {
    if a == 0 then b
    else if b == 0 then a
    else (if a % 2 == 1 || b % 2 == 1 then 1 else 0) + 2 * Or(a / 2, b / 2)
  }

  function Xor(a: nat, b: nat): nat
    decreases a + b
  {
    if a == 0 then b
    else if b == 0 then a
    else (if a % 2 == b % 2 then 0 else 1) + 2 * Xor(a / 2, b / 2)
  }

  lemma XorZero(v: nat)
    ensures Xor(0, v) == v && Xor(v, 0) == v
  {
  }

  lemma XorUnfold(a: nat, b: nat)
    requires a != 0 && b != 0
    ensures Xor(a, b) == (if a % 2 == b % 2 then 0 else 1) + 2 * Xor(a / 2, b / 2)
  {
  }

  lemma XorStep(a: nat, b: nat)
    ensures Xor(a, b) % 2 == (if a % 2 == b % 2 then 0 else 1)
    ensures Xor(a, b) / 2 == Xor(a / 2, b / 2)
  {
    hide Xor;
    if a == 0 || b == 0 {
      XorZero(a);
      XorZero(b);
      XorZero(a / 2);
      XorZero(b / 2);
    } else {
      XorUnfold(a, b);
    }
  }

  // `a | (b << k)` when `a` has only its low `k` bits set.
  lemma {:induction false} OrPlace(a: nat, b: nat, k: nat)
    requires a < Pow2(k)
    ensures Or(a, b * Pow2(k)) == a + b * Pow2(k)
    decreases k
  {
    if k == 0 || a == 0 || b == 0 {
    } else {
      var p := Pow2(k - 1);
      assert b * Pow2(k) == 2 * (b * p);
      OrPlace(a / 2, b, k - 1);
      assert (b * Pow2(k)) / 2 == b * p;
      assert b * p > 0 by { MulMono(1, b, p); }
    }
  }
}
