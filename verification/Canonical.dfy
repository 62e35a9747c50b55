/** What the canonical codes of section 3.2.2 of RFC 1951 are good for: they
    fit their length, no code is a prefix of another, and a decoder that finds
    a code in the stream finds the symbol it was made for. */
module Canonical {
  import opened Arith
  import opened Bits
  import opened Rfc1951

  // ---------- counting ----------

  lemma {:induction false} CountPrefix(lens: seq<nat>, n: nat, b: nat)
    requires n <= |lens|
    ensures Count(lens[..n], b) <= Count(lens, b)
    ensures n < |lens| && lens[n] == b ==> Count(lens[..n], b) < Count(lens, b)
    decreases |lens|
  {
    if n < |lens| {
      var m := |lens| - 1;
      CountPrefix(lens[..m], n, b);
      assert lens[..m][..n] == lens[..n];
    } else {
      assert lens[..n] == lens;
    }
  }

  lemma CountRank(lens: seq<nat>, m: nat, n: nat)
    requires m < n < |lens| && lens[m] == lens[n]
    ensures Count(lens[..m], lens[m]) < Count(lens[..n], lens[n])
  {
    CountPrefix(lens[..n], m, lens[m]);
    assert lens[..n][..m] == lens[..m];
  }

  // ---------- the code space ----------

  lemma {:induction false} KraftStep(lens: seq<nat>, b: nat)
    requires b >= 1
    ensures Kraft(lens, b) == 2 * Kraft(lens, b - 1) + Count(lens, b)
    decreases |lens|
  {
    if lens != [] {
      KraftStep(lens[..|lens| - 1], b);
    }
  }

  // Codes of length up to `b` occupy the first Kraft(lens, b) values of `b` bits.
  lemma {:induction false} KraftIsCodeSpace(lens: seq<nat>, b: nat)
    requires b >= 1
    ensures Kraft(lens, b) == FirstCode(lens, b) + Count(lens, b)
    decreases b
  {
    KraftStep(lens, b);
    if b == 1 {
      KraftZero(lens);
    } else {
      KraftIsCodeSpace(lens, b - 1);
    }
  }

  lemma {:induction false} KraftZero(lens: seq<nat>)
    ensures Kraft(lens, 0) == 0
    decreases |lens|
  {
    if lens != [] {
      KraftZero(lens[..|lens| - 1]);
    }
  }

  lemma {:induction false} KraftGrows(lens: seq<nat>, a: nat, b: nat)
    requires a <= b
    ensures Kraft(lens, a) * Pow2(b - a) <= Kraft(lens, b)
    decreases b
  {
    hide Kraft, Count, Pow2;
    if a < b {
      KraftGrows(lens, a, b - 1);
      KraftStep(lens, b);
      assert Pow2(b - a) == 2 * Pow2(b - 1 - a) by { Pow2Next(b - 1 - a); }
      DoubledBound(Kraft(lens, a), Kraft(lens, a), Pow2(b - 1 - a), Kraft(lens, b - 1));
    } else {
      assert Pow2(0) == 1 by { Pow2Values(); }
    }
  }

  lemma {:induction false} KraftBound(lens: seq<nat>, b: nat, top: nat)
    requires b <= top && Kraft(lens, top) <= Pow2(top)
    ensures Kraft(lens, b) <= Pow2(b)
    decreases top - b
  {
    if b < top {
      KraftBound(lens, b + 1, top);
      KraftStep(lens, b + 1);
    }
  }

  // ---------- the codes ----------

  predicate Coded(lens: seq<nat>, n: nat)
  {
    n < |lens| && lens[n] > 0
  }

  // A code fits in its length, so next_code never overflows 16 bits.
  lemma CodeFits(lens: seq<nat>, n: nat)
    requires ValidLengths(lens) && Coded(lens, n)
    ensures CodeValue(lens, n) < Kraft(lens, lens[n]) <= Pow2(lens[n])
  {
    CountPrefix(lens, n, lens[n]);
    KraftIsCodeSpace(lens, lens[n]);
    KraftBound(lens, lens[n], MAX_BITS);
  }

  // Every longer code lies beyond all extensions of a shorter one.
  lemma CodeOrder(lens: seq<nat>, a: nat, b: nat)
    requires ValidLengths(lens) && Coded(lens, a) && Coded(lens, b) && lens[a] < lens[b]
    ensures (CodeValue(lens, a) + 1) * Pow2(lens[b] - lens[a]) <= CodeValue(lens, b)
  {
    hide Count, Kraft, Pow2, ValidLengths;
    var la, lb := lens[a], lens[b];
    CodeFits(lens, a);
    KraftGrows(lens, la, lb - 1);
    assert FirstCode(lens, lb) == 2 * Kraft(lens, lb - 1) by { KraftIsCodeSpace(lens, lb - 1); }
    Pow2Add(1, lb - 1 - la);
    assert Pow2(1) == 2 by { Pow2Values(); }
    DoubledBound(CodeValue(lens, a) + 1, Kraft(lens, la), Pow2(lb - 1 - la), Kraft(lens, lb - 1));
  }

  lemma DoubledBound(x: nat, k: nat, p: nat, y: nat)
    requires x <= k && k * p <= y
    ensures x * (2 * p) <= 2 * y
  {
    MulMono(x, k, p);
    assert x * (2 * p) == 2 * (x * p);
  }

  predicate IsPrefix(x: seq<bool>, y: seq<bool>)
  {
    |x| <= |y| && y[..|x|] == x
  }

  // No code is a prefix of another.
  lemma PrefixFree(lens: seq<nat>, a: nat, b: nat)
    requires ValidLengths(lens) && Coded(lens, a) && Coded(lens, b) && a != b
    ensures !IsPrefix(CodeBits(lens, a), CodeBits(lens, b))
  {
    hide Count, Kraft, Pow2, MsbBits, FirstCode;
    var la, lb := lens[a], lens[b];
    var ca, cb := CodeValue(lens, a), CodeValue(lens, b);
    if IsPrefix(CodeBits(lens, a), CodeBits(lens, b)) {
      CodeFits(lens, a);
      CodeFits(lens, b);
      MsbPrefix(cb, lb, la);
      HighPart(cb, lb, la);
      MsbInjective(cb / Pow2(lb - la), ca, la);
      if la < lb {
        CodeOrder(lens, a, b);
        QuotientBound(cb, Pow2(lb - la), ca + 1);
      } else {
        assert cb / Pow2(0) == cb by { Pow2Values(); }
        if a < b {
          CountRank(lens, a, b);
        } else {
          CountRank(lens, b, a);
        }
      }
    }
  }

  lemma QuotientBound(x: nat, m: nat, q: nat)
    requires m > 0 && q * m <= x
    ensures x / m >= q
  {
    var r := x / m;
    assert x < (r + 1) * m;
    if r < q {
      MulMono(r + 1, q, m);
    }
  }

  lemma HighPart(v: nat, n: nat, k: nat)
    requires k <= n && v < Pow2(n)
    ensures v / Pow2(n - k) < Pow2(k)
  {
    var q := v / Pow2(n - k);
    Pow2Add(k, n - k);
    assert q * Pow2(n - k) <= v;
    if q >= Pow2(k) {
      MulMono(Pow2(k), q, Pow2(n - k));
    }
  }

  // ---------- decoding ----------

  lemma TwoCodesAt(s: seq<bool>, p: nat, x: seq<bool>, y: seq<bool>)
    requires At(s, p, x) && At(s, p, y) && |x| <= |y|
    ensures IsPrefix(x, y)
  {
    assert y[..|x|] == s[p..p + |y|][..|x|];
  }

  lemma {:induction false} DecodeFromFinds(lens: seq<nat>, s: seq<bool>, p: nat, n: nat, k: nat)
    requires ValidLengths(lens) && Coded(lens, n) && k <= n
    requires At(s, p, CodeBits(lens, n))
    ensures DecodeFrom(lens, s, p, k) == Some(n)
    decreases n - k
  {
    if k < n {
      if lens[k] > 0 && At(s, p, CodeBits(lens, k)) {
        if lens[k] <= lens[n] {
          TwoCodesAt(s, p, CodeBits(lens, k), CodeBits(lens, n));
          PrefixFree(lens, k, n);
        } else {
          TwoCodesAt(s, p, CodeBits(lens, n), CodeBits(lens, k));
          PrefixFree(lens, n, k);
        }
        assert false;
      }
      DecodeFromFinds(lens, s, p, n, k + 1);
    }
  }

  // The decoder finds exactly the symbol whose code was sent.
  lemma DecodeFinds(lens: seq<nat>, s: seq<bool>, p: nat, n: nat)
    requires ValidLengths(lens) && Coded(lens, n)
    requires At(s, p, CodeBits(lens, n))
    ensures DecodeSymbol(lens, s, p) == Some(n)
  {
    DecodeFromFinds(lens, s, p, n, 0);
  }

  lemma ReadFinds(s: seq<bool>, p: nat, v: nat, n: nat)
    requires v < Pow2(n) && At(s, p, ToBits(v, n))
    ensures ReadBits(s, p, n) == Some(v)
  {
    FromToBits(v, n);
  }

  // ---------- lengths built from runs, and truncation ----------

  lemma {:induction false} KraftConcat(a: seq<nat>, b: seq<nat>, top: nat)
    ensures Kraft(a + b, top) == Kraft(a, top) + Kraft(b, top)
    decreases |b|
  {
    if b == [] {
      assert a + b == a;
    } else {
      assert (a + b)[..|a + b| - 1] == a + b[..|b| - 1];
      KraftConcat(a, b[..|b| - 1], top);
    }
  }

  lemma {:induction false} CountConcat(a: seq<nat>, b: seq<nat>, x: nat)
    ensures Count(a + b, x) == Count(a, x) + Count(b, x)
    decreases |b|
  {
    if b == [] {
      assert a + b == a;
    } else {
      assert (a + b)[..|a + b| - 1] == a + b[..|b| - 1];
      CountConcat(a, b[..|b| - 1], x);
    }
  }

  lemma {:induction false} KraftRepeat(l: nat, n: nat, top: nat)
    requires 0 < l <= top
    ensures Kraft(Repeat(l, n), top) == n * Pow2(top - l)
    decreases n
  {
    if n != 0 {
      assert Repeat(l, n)[..n - 1] == Repeat(l, n - 1);
      KraftRepeat(l, n - 1, top);
    }
  }

  lemma {:induction false} CountRepeat(l: nat, n: nat, x: nat)
    ensures Count(Repeat(l, n), x) == if l == x then n else 0
    decreases n
  {
    if n != 0 {
      assert Repeat(l, n)[..n - 1] == Repeat(l, n - 1);
      CountRepeat(l, n - 1, x);
    }
  }

  // Symbols past the last coded one change nothing.
  lemma {:induction false} DropUncoded(lens: seq<nat>, n: nat, top: nat)
    requires n <= |lens| && forall i :: n <= i < |lens| ==> lens[i] == 0
    ensures Kraft(lens[..n], top) == Kraft(lens, top)
    ensures forall b :: b > 0 ==> Count(lens[..n], b) == Count(lens, b)
    decreases |lens|
  {
    if n == |lens| {
      assert lens[..n] == lens;
    } else {
      var m := |lens| - 1;
      DropUncoded(lens[..m], n, top);
      assert lens[..m][..n] == lens[..n];
    }
  }

  lemma {:induction false} FirstCodeSame(a: seq<nat>, b: seq<nat>, l: nat)
    requires forall x :: x > 0 ==> Count(a, x) == Count(b, x)
    ensures FirstCode(a, l) == FirstCode(b, l)
    decreases l
  {
    if l > 1 {
      FirstCodeSame(a, b, l - 1);
    }
  }

  // Sending only the lengths up to the last used symbol leaves every code as it is.
  lemma TruncatedCode(lens: seq<nat>, n: nat, k: nat)
    requires n <= |lens| && forall i :: n <= i < |lens| ==> lens[i] == 0
    requires k < n
    ensures CodeBits(lens[..n], k) == CodeBits(lens, k)
  {
    DropUncoded(lens, n, MAX_BITS);
    FirstCodeSame(lens[..n], lens, lens[k]);
    assert lens[..n][..k] == lens[..k];
  }
}
