/** Code assignment: bi_reverse and gen_codes. */
module Codes {
  import opened Arith
  import opened Bits
  import opened Rfc1951
  import opened Canonical

  // One tree element. `fc` is the union of frequency and code, `dl` the union
  // of father node and code length.
  datatype CtData = CtData(fc: nat, dl: nat)

  function Lens(t: seq<CtData>): (r: seq<nat>)
    ensures |r| == |t| && forall i :: 0 <= i < |t| ==> r[i] == t[i].dl
  {
    seq(|t|, i requires 0 <= i < |t| => t[i].dl)
  }

  ghost predicate CodeSet(t: CtData, lens: seq<nat>, n: nat)
    requires n < |lens|
  {
    t.fc < Pow2(lens[n]) && ToBits(t.fc, lens[n]) == CodeBits(lens, n)
  }

  // What send_bits puts in the stream for an element is its canonical code.
  ghost predicate CodesSet(t: seq<CtData>, lens: seq<nat>)
  {
    && |lens| <= |t|
    && (forall n :: 0 <= n < |lens| ==> t[n].dl == lens[n])
    && (forall n :: 0 <= n < |lens| && lens[n] > 0 ==> CodeSet(t[n], lens, n))
  }

  lemma {:induction false} MsbExtend(c: nat, k: nat)
    ensures MsbBits(c, k + 1) == [(c / Pow2(k)) % 2 == 1] + MsbBits(c, k)
    decreases k
  {
    if k == 0 {
      assert c / Pow2(0) == c;
      assert MsbBits(c / 2, 0) == [];
    } else {
      MsbExtend(c / 2, k - 1);
      DivDiv(c, k);
      ConcatAssoc([(c / Pow2(k)) % 2 == 1], MsbBits(c / 2, k - 1), [c % 2 == 1]);
    }
  }

  lemma ShiftIn(r: nat, b: nat, k: nat)
    requires b < 2 && r < Pow2(k)
    ensures ToBits(2 * r + b, k + 1) == [b == 1] + ToBits(r, k)
    ensures 2 * r + b < Pow2(k + 1)
  {
    assert (2 * r + b) / 2 == r && (2 * r + b) % 2 == b;
  }

  lemma OrLow(r: nat, b: nat)
    requires b < 2
    ensures Or(2 * r, b) == 2 * r + b
  {
    assert Or(0, r) == r && Or(r, 0) == r;
  }

  // Reverses the first `len` bits of `code`: sent from its least significant
  // bit, the result reads as `code` from its most significant bit.
  method BiReverse(code: nat, len: nat) returns (res: nat)
    requires 1 <= len
    ensures res < Pow2(len)
    ensures ToBits(res, len) == MsbBits(code, len)
  {
    hide Or, ToBits, MsbBits;
    res := 0;
    var c, left := code, len;
    ghost var k := 0;
    ghost var done := 0;    // the reversal of the `k` bits taken so far
    assert c == code / Pow2(0);
    assert ToBits(0, 0) == MsbBits(code, 0);
    while true
      invariant left == len - k && left >= 1
      invariant c == code / Pow2(k)
      invariant res == 2 * done && done < Pow2(k)
      invariant ToBits(done, k) == MsbBits(code, k)
      decreases left
    {
      OrLow(done, c % 2);
      MsbExtend(code, k);
      ShiftIn(done, c % 2, k);
      DivTwice(code, k);
      res := Or(res, c % 2);
      done := res;
      k := k + 1;
      left := left - 1;
      if left <= 0 {
        return;
      }
      c := c / 2;
      res := res * 2;
    }
  }

  lemma DivTwice(v: nat, k: nat)
    ensures v / Pow2(k + 1) == (v / Pow2(k)) / 2
  {
    var p := Pow2(k);
    var q, r := (v / p) / 2, (v / p) % 2;
    assert v == (2 * q + r) * p + v % p;
    assert v == q * (2 * p) + (r * p + v % p);
    ModUnique(v, 2 * p, q, r * p + v % p);
  }

  method GenCodes(tree: array<CtData>, maxCode: int, blCount: array<nat>)
    requires -1 <= maxCode < tree.Length && blCount.Length == MAX_BITS + 1
    requires ValidLengths(Lens(tree[..maxCode + 1]))
    requires blCount[0] == 0
    requires forall b :: 1 <= b <= MAX_BITS ==> blCount[b] == Count(Lens(tree[..maxCode + 1]), b)
    modifies tree
    ensures CodesSet(tree[..], old(Lens(tree[..maxCode + 1])))
    ensures forall n :: 0 <= n < tree.Length ==> tree[n].dl == old(tree[n].dl)
    ensures forall n :: 0 <= n < tree.Length && (n > maxCode || tree[n].dl == 0) ==> tree[n] == old(tree[n])
  {
    hide ToBits, FirstCode, Kraft, MsbBits, Count, Pow2, ValidLengths;
    ghost var lens := Lens(tree[..maxCode + 1]);
    var nextCode := FirstCodes(blCount, lens);
    var n := 0;
    assert forall b :: Count(lens[..0], b) == 0 by { CountEmpty(lens); }
    while n <= maxCode
      invariant 0 <= n <= maxCode + 1
      invariant forall b :: 1 <= b <= MAX_BITS ==> nextCode[b] == FirstCode(lens, b) + Count(lens[..n], b)
      invariant forall i :: 0 <= i < tree.Length ==> tree[i].dl == old(tree[i].dl)
      invariant forall i :: 0 <= i < tree.Length && (i >= n || tree[i].dl == 0) ==> tree[i] == old(tree[i])
      invariant forall i :: 0 <= i < n && lens[i] > 0 ==> CodeSet(tree[i], lens, i)
    {
      var len := tree[n].dl;
      CountNext(lens, n);
      if len != 0 {
        CodeInRange(lens, n);
        var code := BiReverse(nextCode[len], len);
        nextCode[len] := U16(nextCode[len] + 1);
        tree[n] := tree[n].(fc := code);
        assert CodeSet(tree[n], lens, n);
      }
      n := n + 1;
    }
  }

  lemma CountEmpty(lens: seq<nat>)
    ensures forall b :: Count(lens[..0], b) == 0
  {
  }

  lemma CountNext(lens: seq<nat>, n: nat)
    requires n < |lens|
    ensures forall b :: Count(lens[..n + 1], b) == Count(lens[..n], b) + if lens[n] == b then 1 else 0
  {
    assert lens[..n + 1][..n] == lens[..n];
  }

  lemma CodeInRange(lens: seq<nat>, n: nat)
    requires ValidLengths(lens) && Coded(lens, n)
    ensures lens[n] <= MAX_BITS && CodeValue(lens, n) + 1 < 0x1_0000
  {
    hide FirstCode, Kraft, Count;
    CodeFits(lens, n);
    Pow2Values();
    Pow2Mono(lens[n], MAX_BITS);
  }

  // The distribution counts give the first code of each length.
  method FirstCodes(blCount: array<nat>, ghost lens: seq<nat>) returns (nextCode: array<nat>)
    requires blCount.Length == MAX_BITS + 1 && ValidLengths(lens)
    requires blCount[0] == 0
    requires forall b :: 1 <= b <= MAX_BITS ==> blCount[b] == Count(lens, b)
    ensures fresh(nextCode) && nextCode.Length == MAX_BITS + 1
    ensures forall b :: 1 <= b <= MAX_BITS ==> nextCode[b] == FirstCode(lens, b)
  {
    hide FirstCode, Count, ValidLengths;
    nextCode := new nat[MAX_BITS + 1];
    var code := 0;
    var bits := 1;
    FirstCodeStep(lens, 0);
    while bits <= MAX_BITS
      invariant 1 <= bits <= MAX_BITS + 1
      invariant code == FirstCode(lens, bits - 1)
      invariant forall b :: 1 <= b < bits ==> nextCode[b] == FirstCode(lens, b)
    {
      FirstCodeStep(lens, bits);
      FirstCodeStep(lens, bits - 1);
      code := U16((code + blCount[bits - 1]) * 2);
      nextCode[bits] := code;
      bits := bits + 1;
    }
  }

  lemma FirstCodeStep(lens: seq<nat>, b: nat)
    requires ValidLengths(lens) && b <= MAX_BITS
    ensures b <= 1 ==> FirstCode(lens, b) == 0
    ensures b >= 2 ==> FirstCode(lens, b) == 2 * (FirstCode(lens, b - 1) + Count(lens, b - 1)) < 0x1_0000
  {
    if b >= 2 {
      KraftIsCodeSpace(lens, b - 1);
      KraftBound(lens, b - 1, MAX_BITS);
      Pow2Mono(b - 1, 14);
      assert Pow2(14) == 16384 by { Pow2Values(); }
    }
  }
}
