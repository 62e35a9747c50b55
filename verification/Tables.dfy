/** ct_init: the tables that map match lengths and distances to codes, and the
    fixed trees of section 3.2.6 of RFC 1951. */
module Tables {
  import opened Arith
  import opened Bits
  import opened Rfc1951
  import opened Canonical
  import opened Codes

  // ---------- which code stands for a length or a distance ----------

  // First normalized length (match length - 3) of each code; code 28 starts
  // where the regular ranges end.
  function LengthStart(c: nat): nat
    requires c <= 28
  {
    if c < 28 then LENGTH_BASE[c] - 3 else 256
  }

  // First normalized distance (distance - 1) of each code.
  function DistStart(c: nat): nat
    requires c <= 30
  {
    if c < 30 then DIST_BASE[c] - 1 else 0x8000
  }

  lemma LengthStep(c: nat)
    requires c < 28
    ensures LengthStart(c + 1) == LengthStart(c) + Pow2(LENGTH_EXTRA[c])
  {
    Pow2Values();
  }

  lemma DistStepLow(c: nat)
    requires c < 15
    ensures DistStart(c + 1) == DistStart(c) + Pow2(DIST_EXTRA[c])
  {
    Pow2Values();
  }

  lemma DistStepHigh(c: nat)
    requires 15 <= c < 30
    ensures DistStart(c + 1) == DistStart(c) + Pow2(DIST_EXTRA[c])
    ensures c >= 16 ==> DIST_EXTRA[c] >= 7
  {
    Pow2Values();
  }

  lemma DistStep(c: nat)
    requires c < 30
    ensures DistStart(c + 1) == DistStart(c) + Pow2(DIST_EXTRA[c])
    ensures c >= 16 ==> DIST_EXTRA[c] >= 7
  {
    if c < 15 {
      DistStepLow(c);
    } else {
      DistStepHigh(c);
    }
  }

  // The code whose range holds the normalized length `x`, searching down from `c`.
  function LengthCodeFrom(x: nat, c: nat): (r: nat)
    requires c <= 27 && x < LengthStart(c + 1)
    ensures r <= c && LengthStart(r) <= x < LengthStart(r + 1)
  {
    if c == 0 || LengthStart(c) <= x then c else LengthCodeFrom(x, c - 1)
  }

  // Match length 258 has a code of its own.
  function LengthCode(x: nat): (r: nat)
    requires x < 256
    ensures r <= 28
  {
    if x == 255 then 28 else LengthCodeFrom(x, 27)
  }

  function DistCodeFrom(x: nat, c: nat): (r: nat)
    requires c <= 29 && x < DistStart(c + 1)
    ensures r <= c && DistStart(r) <= x < DistStart(r + 1)
  {
    if c == 0 || DistStart(c) <= x then c else DistCodeFrom(x, c - 1)
  }

  function DistCode(x: nat): (r: nat)
    requires x < 0x8000
    ensures r < 30 && DistStart(r) <= x < DistStart(r + 1)
  {
    DistCodeFrom(x, 29)
  }

  lemma {:induction false} LengthStartMono(a: nat, b: nat)
    requires a <= b <= 28
    ensures LengthStart(a) <= LengthStart(b)
    decreases b
  {
    if a < b {
      LengthStartMono(a, b - 1);
      LengthStep(b - 1);
    }
  }

  lemma {:induction false} DistStartMono(a: nat, b: nat)
    requires a <= b <= 30
    ensures DistStart(a) <= DistStart(b)
    decreases b
  {
    if a < b {
      DistStartMono(a, b - 1);
      DistStep(b - 1);
    }
  }

  lemma LengthCodeUnique(x: nat, c: nat)
    requires c <= 27 && LengthStart(c) <= x < LengthStart(c + 1) && x < 255
    ensures LengthCode(x) == c
  {
    var r := LengthCode(x);
    if r < c {
      LengthStartMono(r + 1, c);
    } else if c < r {
      LengthStartMono(c + 1, r);
    }
  }

  lemma DistCodeUnique(x: nat, c: nat)
    requires c < 30 && x < 0x8000 && DistStart(c) <= x < DistStart(c + 1)
    ensures DistCode(x) == c
  {
    var r := DistCode(x);
    if r < c {
      DistStartMono(r + 1, c);
    } else if c < r {
      DistStartMono(c + 1, r);
    }
  }

  // A length is its code's base plus what the extra bits can hold.
  lemma LengthCodeHolds(x: nat)
    requires x < 256
    ensures LengthBase(LengthCode(x)) <= x + 3 < LengthBase(LengthCode(x)) + Pow2(LengthExtra(LengthCode(x)))
  {
    var c := LengthCode(x);
    if x != 255 {
      LengthStep(c);
    } else {
      Pow2Values();
      assert LENGTH_BASE[28] == 258 && LENGTH_EXTRA[28] == 0;
    }
  }

  lemma DistCodeHolds(x: nat)
    requires x < 0x8000
    ensures DistBase(DistCode(x)) <= x + 1 < DistBase(DistCode(x)) + Pow2(DistExtra(DistCode(x)))
  {
    DistStep(DistCode(x));
  }

  // ---------- the tables ----------

  class CodeTables {
    const baseLength: array<nat>
    const lengthCode: array<nat>
    const baseDist: array<nat>
    const distCode: array<nat>
    const staticL: array<CtData>
    const staticD: array<CtData>

    // The tables hold the code and the start of its range for every length and
    // every distance.
    ghost predicate Valid()
      reads baseLength, lengthCode, baseDist, distCode
    {
      && baseLength.Length == 29 && lengthCode.Length == 256 && baseDist.Length == 30 && distCode.Length == 512
      && (forall x :: 0 <= x < 256 ==> lengthCode[x] == LengthCode(x))
      && (forall c :: 0 <= c < 28 ==> baseLength[c] == LengthStart(c))
      && (forall c :: 0 <= c < 30 ==> baseDist[c] == DistStart(c))
      && (forall x :: 0 <= x < 256 ==> distCode[x] == DistCode(x))
      && (forall k :: 2 <= k < 256 ==> distCode[256 + k] == DistCode(128 * k))
    }

    // The static trees hold the fixed codes.
    ghost predicate Ready()
      reads baseLength, lengthCode, baseDist, distCode, staticL, staticD
    {
      && Valid() && staticL.Length == 288 && staticD.Length == 30
      && CodesSet(staticL[..], FixedLit()) && CodesSetIn(staticD[..], FixedDist())
    }

    // ct_init, up to the first block.
    constructor (blCount: array<nat>)
      requires blCount.Length == 16 && forall b :: 0 <= b < 16 ==> blCount[b] == 0
      modifies blCount
      ensures Ready() && fresh(staticL) && fresh(staticD)
      ensures fresh(baseLength) && fresh(lengthCode) && fresh(baseDist) && fresh(distCode)
    {
      hide CodesSet, CodesSetIn, FixedLit, FixedDist, LengthCode, DistCode, LengthStart, DistStart;
      var sl := new CtData[288];
      var sd := new CtData[30];
      StaticTrees(sl, sd, blCount);
      staticL, staticD := sl, sd;
      baseLength := new nat[29];
      lengthCode := new nat[256];
      baseDist := new nat[30];
      distCode := new nat[512];
      new;
      InitLengths(baseLength, lengthCode);
      InitDistances(baseDist, distCode);
    }

    // The D_CODE macro.
    function DCode(dist: nat): (r: nat)
      requires Valid() && dist < 0x8000
      reads baseLength, lengthCode, baseDist, distCode
      ensures r == DistCode(dist)
    {
      if dist < 256 then distCode[dist] else (SameDistCode(dist); distCode[256 + dist / 128])
    }
  }

  // Above 256, all distances with the same quotient by 128 share a code.
  lemma SameDistCode(x: nat)
    requires 256 <= x < 0x8000
    ensures DistCode(128 * (x / 128)) == DistCode(x)
  {
    var c := DistCode(x);
    assert c >= 16 by {
      if c < 16 {
        DistStartMono(c + 1, 16);
      }
    }
    var k := x / 128;
    AlignedStart(c);
    AlignedStart(c + 1);
    assert 128 * k <= x < 128 * k + 128;
    DistCodeUnique(128 * k, c);
  }

  lemma {:induction false} AlignedStart(c: nat)
    requires 16 <= c <= 30
    ensures DistStart(c) % 128 == 0 && DistStart(c) >= 256
    decreases c
  {
    if c > 16 {
      AlignedStart(c - 1);
      DistStep(c - 1);
      Pow2Add(7, DIST_EXTRA[c - 1] - 7);
      assert Pow2(7) == 128 by { Pow2Values(); }
    }
  }

  // Codes already entered for the normalized lengths below `x`.
  ghost predicate LengthsFilled(lengthCode: seq<nat>, x: nat, code: nat)
  {
    && x <= |lengthCode| && code <= 28
    && (forall i :: 0 <= i < x ==> lengthCode[i] < 28 && LengthStart(lengthCode[i]) <= i < LengthStart(lengthCode[i] + 1))
  }

  method InitLengths(baseLength: array<nat>, lengthCode: array<nat>)
    requires baseLength.Length == 29 && lengthCode.Length == 256 && baseLength != lengthCode
    modifies baseLength, lengthCode
    ensures forall x :: 0 <= x < 256 ==> lengthCode[x] == LengthCode(x)
    ensures forall c :: 0 <= c < 28 ==> baseLength[c] == LengthStart(c)
  {
    hide LengthStart, Pow2, LengthCode;
    var length, code := 0, 0;
    assert LengthStart(0) == 0 && LengthStart(28) == 256 by { LengthEnds(); }
    while code < 28
      invariant 0 <= code <= 28 && length == LengthStart(code)
      invariant LengthsFilled(lengthCode[..], length, code)
      invariant forall c :: 0 <= c < code ==> baseLength[c] == LengthStart(c)
    {
      baseLength[code] := length;
      LengthStep(code);
      LengthStartMono(code + 1, 28);
      var n := 0;
      while n < Pow2(LENGTH_EXTRA[code])
        invariant 0 <= n <= Pow2(LENGTH_EXTRA[code]) && length == LengthStart(code) + n
        invariant LengthsFilled(lengthCode[..], length, code)
        invariant forall c :: 0 <= c <= code ==> baseLength[c] == LengthStart(c)
      {
        lengthCode[length] := code;
        length := length + 1;
        n := n + 1;
      }
      code := code + 1;
    }
    lengthCode[length - 1] := code;
    forall x | 0 <= x < 255
      ensures lengthCode[x] == LengthCode(x)
    {
      LengthCodeUnique(x, lengthCode[x]);
    }
    LengthLast();
  }

  lemma LengthEnds()
    ensures LengthStart(0) == 0 && LengthStart(28) == 256
  {
  }

  lemma LengthLast()
    ensures LengthCode(255) == 28
  {
  }

  // Codes already entered for the normalized distances below `x`.
  ghost predicate DistsFilled(distCode: seq<nat>, x: nat)
  {
    && x <= 256 <= |distCode|
    && (forall i :: 0 <= i < x ==> distCode[i] < 30 && DistStart(distCode[i]) <= i < DistStart(distCode[i] + 1))
  }

  // The same for the upper half, indexed by distance / 128.
  ghost predicate UpperFilled(distCode: seq<nat>, x: nat)
  {
    && x <= 256 && |distCode| == 512
    && (forall i :: 258 <= i < 256 + x ==>
          distCode[i] < 30 && DistStart(distCode[i]) <= 128 * (i - 256) < DistStart(distCode[i] + 1))
  }

  lemma DistEnds()
    ensures DistStart(0) == 0 && DistStart(16) == 256 && DistStart(30) == 0x8000
  {
  }

  // One code of the upper half, where distances are divided by 128.
  method FillUpper(distCode: array<nat>, code: nat, from: nat) returns (dist: nat)
    requires distCode.Length == 512 && 16 <= code < 30 && 128 * from == DistStart(code)
    requires DistsFilled(distCode[..], 256) && UpperFilled(distCode[..], from)
    modifies distCode
    ensures 128 * dist == DistStart(code + 1)
    ensures DistsFilled(distCode[..], 256) && UpperFilled(distCode[..], dist)
  {
    hide DistStart, Pow2, DistCode, DistsFilled, UpperFilled;
    DistEnds();
    DistStep(code);
    DistStartMono(code + 1, 30);
    var count := Pow2(DIST_EXTRA[code] - 7);
    Pow2Add(7, DIST_EXTRA[code] - 7);
    assert Pow2(7) == 128 by { Pow2Values(); }
    dist := from;
    var n := 0;
    while n < count
      invariant 0 <= n <= count && 128 * dist == DistStart(code) + 128 * n
      invariant DistsFilled(distCode[..], 256) && UpperFilled(distCode[..], dist)
    {
      ghost var d := distCode[..];
      UpperStep(d, dist, code);
      distCode[256 + dist] := code;
      assert distCode[..] == d[256 + dist := code];
      dist := dist + 1;
      n := n + 1;
    }
  }

  lemma UpperStep(d: seq<nat>, dist: nat, code: nat)
    requires DistsFilled(d, 256) && UpperFilled(d, dist) && dist < 256 && code < 30
    requires DistStart(code) <= 128 * dist < DistStart(code + 1)
    ensures DistsFilled(d[256 + dist := code], 256) && UpperFilled(d[256 + dist := code], dist + 1)
  {
    hide DistStart;
  }

  method InitDistances(baseDist: array<nat>, distCode: array<nat>)
    requires baseDist.Length == 30 && distCode.Length == 512 && baseDist != distCode
    modifies baseDist, distCode
    ensures forall c :: 0 <= c < 30 ==> baseDist[c] == DistStart(c)
    ensures forall x :: 0 <= x < 256 ==> distCode[x] == DistCode(x)
    ensures forall k :: 2 <= k < 256 ==> distCode[256 + k] == DistCode(128 * k)
  {
    hide DistStart, Pow2, DistCode, DistsFilled, UpperFilled;
    DistEnds();
    var dist := InitLowDistances(baseDist, distCode);
    dist := dist / 128;
    UpperEmpty(distCode[..]);
    var code := 16;
    while code < 30
      invariant 16 <= code <= 30 && 128 * dist == DistStart(code)
      invariant DistsFilled(distCode[..], 256) && UpperFilled(distCode[..], dist)
      invariant forall c :: 0 <= c < code ==> baseDist[c] == DistStart(c)
    {
      baseDist[code] := dist * 128;
      dist := FillUpper(distCode, code, dist);
      code := code + 1;
    }
    FilledMeansCoded(distCode[..]);
  }

  lemma UpperEmpty(distCode: seq<nat>)
    requires |distCode| == 512
    ensures UpperFilled(distCode, 2)
  {
  }

  lemma FilledMeansCoded(distCode: seq<nat>)
    requires DistsFilled(distCode, 256) && UpperFilled(distCode, 256)
    ensures forall x :: 0 <= x < 256 ==> distCode[x] == DistCode(x)
    ensures forall k :: 2 <= k < 256 ==> distCode[256 + k] == DistCode(128 * k)
  {
    hide DistStart, DistCode;
    forall x | 0 <= x < 256
      ensures distCode[x] == DistCode(x)
    {
      DistCodeUnique(x, distCode[x]);
    }
    forall k | 2 <= k < 256
      ensures distCode[256 + k] == DistCode(128 * k)
    {
      DistCodeUnique(128 * k, distCode[256 + k]);
    }
  }

  method InitLowDistances(baseDist: array<nat>, distCode: array<nat>) returns (dist: nat)
    requires baseDist.Length == 30 && distCode.Length == 512 && baseDist != distCode
    modifies baseDist, distCode
    ensures dist == 256 && DistsFilled(distCode[..], 256)
    ensures forall c :: 0 <= c < 16 ==> baseDist[c] == DistStart(c)
  {
    hide DistStart, Pow2;
    DistEnds();
    dist := 0;
    var code := 0;
    while code < 16
      invariant 0 <= code <= 16 && dist == DistStart(code)
      invariant DistsFilled(distCode[..], dist)
      invariant forall c :: 0 <= c < code ==> baseDist[c] == DistStart(c)
    {
      baseDist[code] := dist;
      DistStep(code);
      DistStartMono(code + 1, 16);
      var n := 0;
      while n < Pow2(DIST_EXTRA[code])
        invariant 0 <= n <= Pow2(DIST_EXTRA[code]) && dist == DistStart(code) + n
        invariant DistsFilled(distCode[..], dist)
        invariant forall c :: 0 <= c <= code ==> baseDist[c] == DistStart(c)
      {
        distCode[dist] := code;
        dist := dist + 1;
        n := n + 1;
      }
      code := code + 1;
    }
  }

  // ---------- the static trees ----------

  lemma FixedLitCounts()
    ensures Kraft(FixedLit(), MAX_BITS) == Pow2(MAX_BITS)
    ensures forall b :: Count(FixedLit(), b) == if b == 7 then 24 else if b == 8 then 152 else if b == 9 then 112 else 0
  {
    hide Kraft, Count;
    var a, b, c, d := Repeat(8, 144), Repeat(9, 112), Repeat(7, 24), Repeat(8, 8);
    KraftConcat(a, b, 15);
    KraftConcat(a + b, c, 15);
    KraftConcat(a + b + c, d, 15);
    KraftRepeat(8, 144, 15);
    KraftRepeat(9, 112, 15);
    KraftRepeat(7, 24, 15);
    KraftRepeat(8, 8, 15);
    Pow2Values();
    forall x
      ensures Count(FixedLit(), x) == if x == 7 then 24 else if x == 8 then 152 else if x == 9 then 112 else 0
    {
      CountConcat(a, b, x);
      CountConcat(a + b, c, x);
      CountConcat(a + b + c, d, x);
      CountRepeat(8, 144, x);
      CountRepeat(9, 112, x);
      CountRepeat(7, 24, x);
      CountRepeat(8, 8, x);
    }
  }

  lemma FixedLitValid()
    ensures ValidLengths(FixedLit())
  {
    hide Kraft;
    FixedLitCounts();
  }

  lemma FixedDistValid()
    ensures ValidLengths(FixedDist())
  {
    hide Kraft;
    KraftRepeat(5, 32, 15);
    Pow2Values();
  }

  // The fixed distance codes are the numbers themselves.
  lemma FixedDistCode(n: nat)
    requires n < 32
    ensures CodeValue(FixedDist(), n) == n
  {
    hide Count;
    CountRepeat(5, 32, 1);
    CountRepeat(5, 32, 2);
    CountRepeat(5, 32, 3);
    CountRepeat(5, 32, 4);
    assert FirstCode(FixedDist(), 5) == 0 by {
      assert FirstCode(FixedDist(), 2) == 0;
      assert FirstCode(FixedDist(), 3) == 0;
      assert FirstCode(FixedDist(), 4) == 0;
    }
    assert FixedDist()[..n] == Repeat(5, n);
    CountRepeat(5, n, 5);
  }

  method FillLength(tree: array<CtData>, blCount: array<nat>, from: nat, to: nat, len: nat)
    requires from <= to <= tree.Length && len < blCount.Length
    modifies tree, blCount
    ensures forall i :: 0 <= i < tree.Length ==> tree[i].dl == if from <= i < to then len else old(tree[i].dl)
    ensures forall b :: 0 <= b < blCount.Length ==> blCount[b] == old(blCount[b]) + if b == len then to - from else 0
  {
    var n := from;
    while n < to
      invariant from <= n <= to
      invariant forall i :: 0 <= i < tree.Length ==> tree[i].dl == if from <= i < n then len else old(tree[i].dl)
      invariant forall b :: 0 <= b < blCount.Length ==> blCount[b] == old(blCount[b]) + if b == len then n - from else 0
    {
      tree[n] := tree[n].(dl := len);
      blCount[len] := blCount[len] + 1;
      n := n + 1;
    }
  }

  method StaticTrees(ltree: array<CtData>, dtree: array<CtData>, blCount: array<nat>)
    requires ltree.Length == 288 && dtree.Length == 30 && ltree != dtree && blCount.Length == 16
    requires forall b :: 0 <= b < 16 ==> blCount[b] == 0
    modifies ltree, dtree, blCount
    ensures CodesSet(ltree[..], FixedLit())
    ensures CodesSetIn(dtree[..], FixedDist())
  {
    hide Count, Kraft, ValidLengths, CodesSet, CodesSetIn;
    FillLength(ltree, blCount, 0, 144, 8);
    FillLength(ltree, blCount, 144, 256, 9);
    FillLength(ltree, blCount, 256, 280, 7);
    FillLength(ltree, blCount, 280, 288, 8);
    assert ltree[..288] == ltree[..];
    assert Lens(ltree[..288]) == FixedLit();
    FixedLitCounts();
    FixedLitValid();
    GenCodes(ltree, 287, blCount);
    StaticDist(dtree);
  }

  // As CodesSet, for a tree that leaves out the last symbols of the code.
  ghost predicate CodesSetIn(t: seq<CtData>, lens: seq<nat>)
  {
    && |t| <= |lens|
    && (forall n :: 0 <= n < |t| ==> t[n].dl == lens[n])
    && (forall n :: 0 <= n < |t| && lens[n] > 0 ==> CodeSet(t[n], lens, n))
  }

  method StaticDist(dtree: array<CtData>)
    requires dtree.Length == 30
    modifies dtree
    ensures CodesSetIn(dtree[..], FixedDist())
  {
    hide ToBits, MsbBits, Pow2, CodeValue;
    var n := 0;
    while n < 30
      invariant 0 <= n <= 30
      invariant forall i :: 0 <= i < n ==> dtree[i].dl == 5 && CodeSet(dtree[i], FixedDist(), i)
    {
      var code := BiReverse(n, 5);
      FixedDistCode(n);
      dtree[n] := CtData(code, 5);
      n := n + 1;
    }
  }
}
