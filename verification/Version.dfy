/** Version ordering of dpkg: order, version_compare_part, version_compare and
    test_version, against section 5.6.12 of the Debian Policy Manual. */
module Version {
  import opened Arith

  // A character of a C string; 0 is only its end.
  type Char = c: nat | 0 < c < 256 witness 1

  predicate IsDigit(c: nat)
  {
    48 <= c <= 57
  }

  predicate IsAlpha(c: nat)
  {
    65 <= c <= 90 || 97 <= c <= 122
  }

  // '~' sorts before the end of a part, the end before letters, and letters
  // before everything else.
  function Order(x: nat): int
    requires x < 256
  {
    if x == 126 then -1
    else if x == 0 then 0
    else if IsDigit(x) then 0
    else if IsAlpha(x) then x
    else x + 256
  }

  // The character at the front of a string.
  function Front(v: seq<Char>): (r: nat)
    ensures r < 256
  {
    if v == [] then 0 else v[0]
  }

  function DigitCount(v: seq<Char>): (r: nat)
    ensures r <= |v| && (forall i :: 0 <= i < r ==> IsDigit(v[i])) && (r < |v| ==> !IsDigit(v[r]))
  {
    if v == [] || !IsDigit(v[0]) then 0 else 1 + DigitCount(v[1..])
  }

  function PartCount(v: seq<Char>): (r: nat)
    ensures r <= |v| && (forall i :: 0 <= i < r ==> !IsDigit(v[i])) && (r < |v| ==> IsDigit(v[r]))
  {
    if v == [] || IsDigit(v[0]) then 0 else 1 + PartCount(v[1..])
  }

  predicate AllDigits(d: seq<Char>)
  {
    forall i :: 0 <= i < |d| ==> IsDigit(d[i])
  }

  function Digit(c: Char): (r: nat)
    requires IsDigit(c)
    ensures r <= 9
  {
    var x: int := c;
    x - 48
  }

  // The number written in decimal; the empty string counts as zero.
  function Value(d: seq<Char>): (r: nat)
    requires AllDigits(d)
  {
    if d == [] then 0 else 10 * Value(d[..|d| - 1]) + Digit(d[|d| - 1])
  }

  function Compare(x: int, y: int): int
  {
    if x < y then -1 else if x > y then 1 else 0
  }

  // ---------- the rule of the policy manual ----------

  // Parts without digits, compared character by character with `Order`; a part
  // that ends early goes on with zeros.
  function CompareParts(a: seq<Char>, b: seq<Char>): (r: int)
    decreases |a| + |b|
  {
    if a == [] && b == [] then 0
    else if Order(Front(a)) != Order(Front(b)) then Compare(Order(Front(a)), Order(Front(b)))
    else CompareParts(if a == [] then a else a[1..], if b == [] then b else b[1..])
  }

  // The number at the front.
  function Number(v: seq<Char>): nat
  {
    Value(v[..DigitCount(v)])
  }

  // Alternating: the parts without digits first, then the numbers, then the rest.
  function Policy(v: seq<Char>, r: seq<Char>): int
    decreases |v| + |r|
  {
    if v == [] && r == [] then 0
    else
      var n, m := PartCount(v), PartCount(r);
      var parts := CompareParts(v[..n], r[..m]);
      if parts != 0 then parts
      else
        var v1, r1 := v[n..], r[m..];
        if Number(v1) != Number(r1) then Compare(Number(v1), Number(r1))
        else
          Shorter(v, r);
          Policy(v1[DigitCount(v1)..], r1[DigitCount(r1)..])
  }

  // A non-empty string starts with a part or with a number.
  lemma Shorter(v: seq<Char>, r: seq<Char>)
    requires v != [] || r != []
    ensures var v1, r1 := v[PartCount(v)..], r[PartCount(r)..];
            |v1[DigitCount(v1)..]| + |r1[DigitCount(r1)..]| < |v| + |r|
  {
  }

  // ---------- an order on integer sequences ----------

  // What a version part amounts to: weights of characters, and a zero before
  // each number.
  function Key(v: seq<Char>): seq<int>
    decreases |v|
  {
    if v == [] then []
    else if IsDigit(v[0]) then [0, Value(v[..DigitCount(v)])] + Key(v[DigitCount(v)..])
    else [Order(v[0])] + Key(v[1..])
  }

  function Head(a: seq<int>): int
  {
    if a == [] then 0 else a[0]
  }

  function Rest(a: seq<int>): (r: seq<int>)
    ensures |r| <= |a| && (a != [] ==> |r| < |a|)
  {
    if a == [] then [] else a[1..]
  }

  // Lexicographic, as if both went on with zeros forever.
  function Lex(a: seq<int>, b: seq<int>): (r: int)
    ensures -1 <= r <= 1
    decreases |a| + |b|
  {
    if a == [] && b == [] then 0
    else if Head(a) != Head(b) then Compare(Head(a), Head(b))
    else Lex(Rest(a), Rest(b))
  }

  lemma {:induction false} LexReflexive(a: seq<int>)
    ensures Lex(a, a) == 0
    decreases |a|
  {
    if a != [] {
      LexReflexive(Rest(a));
    }
  }

  lemma {:induction false} LexAntisymmetric(a: seq<int>, b: seq<int>)
    ensures Lex(b, a) == -Lex(a, b)
    decreases |a| + |b|
  {
    if (a != [] || b != []) && Head(a) == Head(b) {
      LexAntisymmetric(Rest(a), Rest(b));
    }
  }

  lemma {:induction false} LexTransitive(a: seq<int>, b: seq<int>, c: seq<int>)
    requires Lex(a, b) <= 0 && Lex(b, c) <= 0
    ensures Lex(a, c) <= 0
    ensures Lex(a, c) == 0 ==> Lex(a, b) == 0 && Lex(b, c) == 0
    decreases |a| + |b| + |c|
  {
    if a == [] && b == [] && c == [] {
    } else if Head(a) == Head(b) == Head(c) {
      LexTransitive(Rest(a), Rest(b), Rest(c));
      LexStep(a, b);
      LexStep(b, c);
      LexStep(a, c);
    } else {
      LexStep(a, b);
      LexStep(b, c);
    }
  }

  // One step holds for empty sequences as well.
  lemma LexStep(a: seq<int>, b: seq<int>)
    ensures Lex(a, b) == if Head(a) != Head(b) then Compare(Head(a), Head(b)) else Lex(Rest(a), Rest(b))
  {
  }

  // ---------- numbers ----------

  lemma {:induction false} ValueBound(d: seq<Char>)
    requires AllDigits(d)
    ensures Value(d) < Pow10(|d|)
    ensures d != [] && d[0] != 48 ==> Value(d) >= Pow10(|d| - 1)
    decreases |d|
  {
    if |d| > 1 {
      ValueBound(d[..|d| - 1]);
    }
  }

  function Pow10(n: nat): (r: nat)
    ensures r >= 1
  {
    if n == 0 then 1 else 10 * Pow10(n - 1)
  }

  lemma {:induction false} Pow10Mono(m: nat, n: nat)
    requires m <= n
    ensures Pow10(m) <= Pow10(n)
    decreases n
  {
    if m < n {
      Pow10Mono(m, n - 1);
    }
  }

  lemma {:induction false} LeadingZero(d: seq<Char>)
    requires AllDigits(d) && d != [] && d[0] == 48
    ensures AllDigits(d[1..]) && Value(d[1..]) == Value(d)
    decreases |d|
  {
    if |d| > 1 {
      LeadingZero(d[..|d| - 1]);
      assert d[..|d| - 1][1..] == d[1..][..|d| - 2];
    }
  }

  // Without leading zeros, the longer number is the larger one.
  lemma LongerIsLarger(a: seq<Char>, b: seq<Char>)
    requires AllDigits(a) && AllDigits(b) && |a| > |b| && a[0] != 48
    ensures Value(a) > Value(b)
  {
    ValueBound(a);
    ValueBound(b);
    Pow10Mono(|b|, |a| - 1);
  }

  // The first digit where numbers of equal length differ, as a difference.
  function FirstDiff(a: seq<Char>, b: seq<Char>): int
    requires |a| == |b| && AllDigits(a) && AllDigits(b)
  {
    if a == [] then 0
    else if FirstDiff(a[..|a| - 1], b[..|a| - 1]) != 0 then FirstDiff(a[..|a| - 1], b[..|a| - 1])
    else Digit(a[|a| - 1]) - Digit(b[|a| - 1])
  }

  // It decides between them.
  lemma {:induction false} FirstDiffDecides(a: seq<Char>, b: seq<Char>)
    requires AllDigits(a) && AllDigits(b) && |a| == |b|
    ensures Compare(Value(a), Value(b)) == Compare(FirstDiff(a, b), 0)
    decreases |a|
  {
    if a != [] {
      FirstDiffDecides(a[..|a| - 1], b[..|a| - 1]);
    }
  }

  // ---------- the key orders as the policy says ----------

  lemma KeyFront(v: seq<Char>)
    ensures Head(Key(v)) == Order(Front(v))
    ensures v != [] && !IsDigit(v[0]) ==> Rest(Key(v)) == Key(v[1..])
  {
    hide Value;
  }

  lemma KeyNumber(v: seq<Char>)
    requires v == [] || IsDigit(v[0])
    ensures var k := DigitCount(v);
            Head(Key(v)) == 0 && Head(Rest(Key(v))) == Value(v[..k]) && Rest(Rest(Key(v))) == Key(v[k..])
  {
    if v != [] {
      var k := DigitCount(v);
      assert Key(v)[1..] == [Value(v[..k])] + Key(v[k..]);
    }
  }

  // The parts without digits decide, or drop out.
  lemma {:induction false} PartsDecide(v: seq<Char>, r: seq<Char>)
    ensures var n, m := PartCount(v), PartCount(r);
            var parts := CompareParts(v[..n], r[..m]);
            Lex(Key(v), Key(r)) == if parts != 0 then parts else Lex(Key(v[n..]), Key(r[m..]))
    decreases |v| + |r|
  {
    hide Key, Lex;
    var n, m := PartCount(v), PartCount(r);
    if n == 0 && m == 0 {
      assert v[0..] == v && r[0..] == r;
    } else {
      KeyFront(v);
      KeyFront(r);
      LexStep(Key(v), Key(r));
      assert Order(Front(v[..n])) == Order(Front(v)) && Order(Front(r[..m])) == Order(Front(r));
      if Order(Front(v)) == Order(Front(r)) {
        PartsDecide(v[1..], r[1..]);
        assert v[..n][1..] == v[1..][..n - 1] && r[..m][1..] == r[1..][..m - 1];
        assert v[1..][n - 1..] == v[n..] && r[1..][m - 1..] == r[m..];
      }
    }
  }

  lemma NumbersDecide(v: seq<Char>, r: seq<Char>)
    requires (v == [] || IsDigit(v[0])) && (r == [] || IsDigit(r[0]))
    ensures var k, l := DigitCount(v), DigitCount(r);
            var x, y := Value(v[..k]), Value(r[..l]);
            Lex(Key(v), Key(r)) == if x != y then Compare(x, y) else Lex(Key(v[k..]), Key(r[l..]))
  {
    hide Key, Lex, Value;
    KeyNumber(v);
    KeyNumber(r);
    LexStep(Key(v), Key(r));
    LexStep(Rest(Key(v)), Rest(Key(r)));
  }

  lemma {:induction false} KeyIsPolicy(v: seq<Char>, r: seq<Char>)
    ensures Lex(Key(v), Key(r)) == Policy(v, r)
    decreases |v| + |r|
  {
    hide Key, Lex, Value, CompareParts;
    if v == [] && r == [] {
      assert Lex(Key(v), Key(r)) == 0 by { NothingLeft(); }
    } else {
      PartsDecide(v, r);
      var n, m := PartCount(v), PartCount(r);
      var v1, r1 := v[n..], r[m..];
      NumbersDecide(v1, r1);
      KeyIsPolicy(v1[DigitCount(v1)..], r1[DigitCount(r1)..]);
    }
  }

  lemma NothingLeft()
    ensures Lex(Key([]), Key([])) == 0
  {
  }

  // ---------- version_compare_part ----------

  // A digit run with its leading zeros skipped.
  method SkipZeros(v: seq<Char>, i0: nat, ghost k: nat) returns (i: nat)
    requires i0 <= |v| && k == DigitCount(v[i0..])
    ensures i0 <= i <= i0 + k && AllDigits(v[i0..i0 + k]) && AllDigits(v[i..i0 + k])
    ensures Value(v[i..i0 + k]) == Value(v[i0..i0 + k])
    ensures i < i0 + k ==> v[i] != 48
  {
    hide Value;
    RunIsDigits(v, i0, k);
    i := i0;
    while i < |v| && v[i] == 48
      invariant i0 <= i <= i0 + k && AllDigits(v[i..i0 + k]) && Value(v[i..i0 + k]) == Value(v[i0..i0 + k])
    {
      StillDigit(v, i0, k, i);
      LeadingZero(v[i..i0 + k]);
      assert v[i..i0 + k][1..] == v[i + 1..i0 + k];
      i := i + 1;
    }
  }

  lemma RunIsDigits(v: seq<Char>, i0: nat, k: nat)
    requires i0 <= |v| && k == DigitCount(v[i0..])
    ensures i0 + k <= |v| && AllDigits(v[i0..i0 + k]) && v[i0..][..k] == v[i0..i0 + k]
    ensures i0 + k < |v| ==> !IsDigit(v[i0 + k])
    ensures forall i :: i0 <= i < i0 + k ==> IsDigit(v[i])
  {
    forall i | i0 <= i < i0 + k
      ensures IsDigit(v[i])
    {
      assert v[i] == v[i0..][i - i0];
    }
    assert i0 + k < |v| ==> v[i0 + k] == v[i0..][k];
  }

  lemma StillDigit(v: seq<Char>, i0: nat, k: nat, i: nat)
    requires i0 <= i < |v| && k == DigitCount(v[i0..]) && i <= i0 + k
    ensures IsDigit(v[i]) <==> i < i0 + k
  {
    assert v[i] == v[i0..][i - i0];
  }

  // The common digits of two runs, and the first difference in them.
  method CommonDigits(v: seq<Char>, i1: nat, ghost ve: nat, r: seq<Char>, j1: nat, ghost re: nat)
    returns (i: nat, j: nat, firstDiff: int)
    requires i1 <= ve <= |v| && j1 <= re <= |r| && AllDigits(v[i1..ve]) && AllDigits(r[j1..re])
    requires (ve < |v| ==> !IsDigit(v[ve])) && (re < |r| ==> !IsDigit(r[re]))
    ensures i1 <= i <= ve && j1 <= j <= re && i - i1 == j - j1 && (i == ve || j == re)
    ensures AllDigits(v[i1..i]) && AllDigits(r[j1..j]) && firstDiff == FirstDiff(v[i1..i], r[j1..j])
  {
    hide FirstDiff;
    i, j, firstDiff := i1, j1, 0;
    NoDiff(v[i1..i1], r[j1..j1]);
    while i < |v| && IsDigit(v[i]) && j < |r| && IsDigit(r[j])
      invariant i1 <= i <= ve && j1 <= j <= re && i - i1 == j - j1
      invariant AllDigits(v[i1..i]) && AllDigits(r[j1..j]) && firstDiff == FirstDiff(v[i1..i], r[j1..j])
    {
      DiffNext(v[i1..i], v[i], r[j1..j], r[j]);
      assert v[i1..i] + [v[i]] == v[i1..i + 1] && r[j1..j] + [r[j]] == r[j1..j + 1];
      if firstDiff == 0 {
        firstDiff := Digit(v[i]) - Digit(r[j]);
      }
      i := i + 1;
      j := j + 1;
    }
    assert i < ve ==> IsDigit(v[i1..ve][i - i1]);
    assert j < re ==> IsDigit(r[j1..re][j - j1]);
  }

  // Compare two digit runs as numbers, moving behind them when they are equal.
  method CompareNumbers(v: seq<Char>, i0: nat, r: seq<Char>, j0: nat) returns (i: nat, j: nat, result: int)
    requires i0 <= |v| && j0 <= |r|
    ensures var k, l := DigitCount(v[i0..]), DigitCount(r[j0..]);
            && Compare(result, 0) == Compare(Value(v[i0..][..k]), Value(r[j0..][..l]))
            && (result == 0 ==> i == i0 + k && j == j0 + l)
  {
    hide Value, FirstDiff;
    ghost var k, l := DigitCount(v[i0..]), DigitCount(r[j0..]);
    RunIsDigits(v, i0, k);
    RunIsDigits(r, j0, l);
    ghost var ve, re := i0 + k, j0 + l;
    var i1 := SkipZeros(v, i0, k);
    var j1 := SkipZeros(r, j0, l);
    i, j, result := CommonDigits(v, i1, ve, r, j1, re);
    if i < |v| && IsDigit(v[i]) {
      LongerIsLarger(v[i1..ve], r[j1..re]);
      return i, j, 1;
    }
    if j < |r| && IsDigit(r[j]) {
      LongerIsLarger(r[j1..re], v[i1..ve]);
      return i, j, -1;
    }
    RunEnds(v, i0, k, i);
    RunEnds(r, j0, l, j);
    FirstDiffDecides(v[i1..ve], r[j1..re]);
  }

  lemma RunEnds(v: seq<Char>, i0: nat, k: nat, i: nat)
    requires i0 <= i <= i0 + k <= |v| && k == DigitCount(v[i0..]) && (i < |v| ==> !IsDigit(v[i]))
    ensures i == i0 + k
  {
    if i < |v| {
      StillDigit(v, i0, k, i);
    }
  }

  lemma NoDiff(a: seq<Char>, b: seq<Char>)
    requires a == [] && b == []
    ensures FirstDiff(a, b) == 0
  {
  }

  lemma DiffNext(a: seq<Char>, x: Char, b: seq<Char>, y: Char)
    requires |a| == |b| && AllDigits(a) && AllDigits(b) && IsDigit(x) && IsDigit(y)
    ensures AllDigits(a + [x]) && AllDigits(b + [y])
    ensures FirstDiff(a + [x], b + [y]) == if FirstDiff(a, b) != 0 then FirstDiff(a, b) else Digit(x) - Digit(y)
  {
    assert (a + [x])[..|a|] == a && (b + [y])[..|b|] == b;
  }

  // The sign of the result is the order of the two parts.
  method VersionComparePart(val: seq<Char>, ref: seq<Char>) returns (result: int)
    ensures Compare(result, 0) == Policy(val, ref)
  {
    hide Key, Lex, Value, Policy;
    KeyIsPolicy(val, ref);
    var i, j := 0, 0;
    assert val[0..] == val && ref[0..] == ref;
    while i < |val| || j < |ref|
      invariant 0 <= i <= |val| && 0 <= j <= |ref|
      invariant Lex(Key(val[i..]), Key(ref[j..])) == Policy(val, ref)
      decreases |val| - i + |ref| - j
    {
      ghost var i0, j0 := i, j;
      while (i < |val| && !IsDigit(val[i])) || (j < |ref| && !IsDigit(ref[j]))
        invariant i0 <= i <= |val| && j0 <= j <= |ref|
        invariant Lex(Key(val[i..]), Key(ref[j..])) == Policy(val, ref)
        decreases |val| - i + |ref| - j
      {
        var vc := Order(if i < |val| then val[i] else 0);
        var rc := Order(if j < |ref| then ref[j] else 0);
        KeyFront(val[i..]);
        KeyFront(ref[j..]);
        LexStep(Key(val[i..]), Key(ref[j..]));
        if vc != rc {
          return vc - rc;
        }
        SameOrder(val, i, ref, j);
        assert val[i..][1..] == val[i + 1..] && ref[j..][1..] == ref[j + 1..];
        i := i + 1;
        j := j + 1;
      }
      NumbersDecide(val[i..], ref[j..]);
      ghost var i1, j1 := i, j;
      i, j, result := CompareNumbers(val, i, ref, j);
      if result != 0 {
        return;
      }
      assert val[i1..][DigitCount(val[i1..])..] == val[i..] && ref[j1..][DigitCount(ref[j1..])..] == ref[j..];
    }
    assert val[i..] == [] && ref[j..] == [];
    NothingLeft();
    return 0;
  }

  lemma SameOrder(v: seq<Char>, i: nat, r: seq<Char>, j: nat)
    requires i <= |v| && j <= |r| && ((i < |v| && !IsDigit(v[i])) || (j < |r| && !IsDigit(r[j])))
    requires Order(if i < |v| then v[i] else 0) == Order(if j < |r| then r[j] else 0)
    ensures i < |v| && j < |r| && !IsDigit(v[i]) && !IsDigit(r[j])
  {
  }

  // ---------- version_compare ----------

  predicate IsSpace(c: nat)
  {
    c == 32 || 9 <= c <= 13
  }

  function SkipSpaces(s: seq<Char>): seq<Char>
  {
    if s != [] && IsSpace(s[0]) then SkipSpaces(s[1..]) else s
  }

  // atoi, as an unsigned number: blanks, a sign, digits up to the first other
  // character.
  function Atoi(s: seq<Char>): (r: nat)
    ensures r < 0x1_0000_0000
  {
    var t := SkipSpaces(s);
    if t != [] && (t[0] == 45 || t[0] == 43) then
      var n := Value(t[1..][..DigitCount(t[1..])]);
      if t[0] == 45 then U32(0 - n) else U32(n)
    else U32(Value(t[..DigitCount(t)]))
  }

  // The first occurrence of `c` at or after `i`, or the end.
  function Find(s: seq<Char>, c: Char, i: nat): (r: nat)
    requires i <= |s|
    ensures i <= r <= |s| && (r < |s| ==> s[r] == c) && forall k :: i <= k < r ==> s[k] != c
    decreases |s| - i
  {
    if i == |s| || s[i] == c then i else Find(s, c, i + 1)
  }

  // The last occurrence of `c` before `n`, or -1.
  function FindLast(s: seq<Char>, c: Char, n: nat): (r: int)
    requires n <= |s|
    ensures -1 <= r < n && (r >= 0 ==> s[r] == c) && forall k :: r < k < n ==> s[k] != c
  {
    if n == 0 then -1 else if s[n - 1] == c then n - 1 else FindLast(s, c, n - 1)
  }

  const COLON: Char := 58
  const DASH: Char := 45

  // [epoch:]upstream[-revision]; a missing epoch is 0 and a missing revision empty.
  datatype Fields = Fields(epoch: nat, upstream: seq<Char>, revision: seq<Char>)

  function EpochOf(s: seq<Char>): nat
  {
    if Find(s, COLON, 0) < |s| then Atoi(s) else 0
  }

  function WithoutEpoch(s: seq<Char>): seq<Char>
  {
    var colon := Find(s, COLON, 0);
    if colon < |s| then s[colon + 1..] else s
  }

  function UpstreamOf(s: seq<Char>): seq<Char>
  {
    var dash := FindLast(s, DASH, |s|);
    if dash >= 0 then s[..dash] else s
  }

  function RevisionOf(s: seq<Char>): seq<Char>
  {
    var dash := FindLast(s, DASH, |s|);
    if dash >= 0 then s[dash + 1..] else []
  }

  function Split(s: seq<Char>): Fields
  {
    var rest := WithoutEpoch(s);
    Fields(EpochOf(s), UpstreamOf(rest), RevisionOf(rest))
  }

  // Epochs first, then upstream versions, then revisions.
  function PolicyOrder(a: Fields, b: Fields): (r: int)
  {
    if a.epoch != b.epoch then Compare(a.epoch, b.epoch)
    else if Policy(a.upstream, b.upstream) != 0 then Policy(a.upstream, b.upstream)
    else Policy(a.revision, b.revision)
  }

  // The order of two version strings: negative, zero or positive.
  function VersionOrder(v1: seq<Char>, v2: seq<Char>): int
  {
    PolicyOrder(Split(v1), Split(v2))
  }

  method VersionCompare(ver1: seq<Char>, ver2: seq<Char>) returns (result: int)
    ensures Compare(result, 0) == VersionOrder(ver1, ver2)
  {
    hide Policy, Atoi, Find, FindLast;
    var epoch1, ch1 := TakeEpoch(ver1);
    var epoch2, ch2 := TakeEpoch(ver2);
    if epoch1 < epoch2 {
      return -1;
    }
    if epoch1 > epoch2 {
      return 1;
    }
    var upstream1, deb1 := ChopRevision(ch1);
    var upstream2, deb2 := ChopRevision(ch2);
    result := VersionComparePart(upstream1, upstream2);
    if result == 0 {
      result := VersionComparePart(deb1, deb2);
    }
  }

  method TakeEpoch(ver: seq<Char>) returns (epoch: nat, rest: seq<Char>)
    ensures epoch == EpochOf(ver) && rest == WithoutEpoch(ver)
  {
    epoch, rest := 0, ver;
    var colon := Find(ver, COLON, 0);
    if colon < |ver| {
      epoch := Atoi(ver);
      rest := ver[colon + 1..];
    }
  }

  // Chop off the revision.
  method ChopRevision(ver: seq<Char>) returns (upstream: seq<Char>, revision: seq<Char>)
    ensures upstream == UpstreamOf(ver) && revision == RevisionOf(ver)
  {
    hide FindLast;
    upstream, revision := ver, [];
    var dash := FindLast(ver, DASH, |ver|);
    if dash >= 0 {
      upstream, revision := ver[..dash], ver[dash + 1..];
    }
  }

  // ---------- a total preorder ----------

  lemma PolicyPreorder(a: seq<Char>, b: seq<Char>, c: seq<Char>)
    ensures Policy(a, a) == 0 && Policy(b, a) == -Policy(a, b)
    ensures Policy(a, b) <= 0 && Policy(b, c) <= 0 ==> Policy(a, c) <= 0
    ensures Policy(a, b) <= 0 && Policy(b, c) <= 0 && Policy(a, c) == 0 ==> Policy(a, b) == 0 && Policy(b, c) == 0
  {
    hide Policy, Key, Lex;
    KeyIsPolicy(a, a);
    KeyIsPolicy(a, b);
    KeyIsPolicy(b, a);
    KeyIsPolicy(b, c);
    KeyIsPolicy(a, c);
    LexReflexive(Key(a));
    LexAntisymmetric(Key(a), Key(b));
    if Policy(a, b) <= 0 && Policy(b, c) <= 0 {
      LexTransitive(Key(a), Key(b), Key(c));
    }
  }

  // On all version strings: reflexive, antisymmetric in sign, transitive.
  lemma VersionPreorder(u: seq<Char>, v: seq<Char>, w: seq<Char>)
    ensures VersionOrder(u, u) == 0
    ensures VersionOrder(v, u) == -VersionOrder(u, v)
    ensures VersionOrder(u, v) <= 0 && VersionOrder(v, w) <= 0 ==> VersionOrder(u, w) <= 0
    ensures VersionOrder(u, v) == 0 ==> VersionOrder(u, w) == VersionOrder(v, w)
  {
    hide Policy, Split;
    var a, b, c := Split(u), Split(v), Split(w);
    FieldsPreorder(a, b, c);
    FieldsPreorder(b, a, c);
    FieldsPreorder(c, a, b);
    FieldsPreorder(c, b, a);
    FieldsPreorder(a, c, b);
  }

  lemma FieldsPreorder(a: Fields, b: Fields, c: Fields)
    ensures PolicyOrder(a, a) == 0 && PolicyOrder(b, a) == -PolicyOrder(a, b) && -1 <= PolicyOrder(a, b) <= 1
    ensures PolicyOrder(a, b) <= 0 && PolicyOrder(b, c) <= 0 ==> PolicyOrder(a, c) <= 0
    ensures PolicyOrder(a, b) <= 0 && PolicyOrder(b, c) <= 0 && PolicyOrder(a, c) == 0 ==>
              PolicyOrder(a, b) == 0 && PolicyOrder(b, c) == 0
  {
    hide Policy, Lex, Key;
    PolicyPreorder(a.upstream, b.upstream, c.upstream);
    PolicyPreorder(a.revision, b.revision, c.revision);
    KeyIsPolicy(a.upstream, b.upstream);
    KeyIsPolicy(a.revision, b.revision);
    KeyIsPolicy(b.upstream, c.upstream);
    KeyIsPolicy(b.revision, c.revision);
    KeyIsPolicy(a.upstream, c.upstream);
    KeyIsPolicy(a.revision, c.revision);
  }

  // ---------- test_version ----------

  datatype Operator = VerNull | VerEqual | VerLess | VerLessEqual | VerMore | VerMoreEqual | VerAny

  // What a version restriction asks for.
  predicate Meets(version: seq<Char>, wanted: seq<Char>, op: Operator)
  {
    match op
    case VerAny => true
    case VerEqual => VersionOrder(version, wanted) == 0
    case VerLess => VersionOrder(version, wanted) < 0
    case VerLessEqual => VersionOrder(version, wanted) <= 0
    case VerMore => VersionOrder(version, wanted) > 0
    case VerMoreEqual => VersionOrder(version, wanted) >= 0
    case VerNull => false
  }

  method TestVersion(version1: seq<Char>, version2: seq<Char>, op: Operator) returns (ok: bool)
    ensures ok == Meets(version1, version2, op)
  {
    hide VersionOrder;
    var r := VersionCompare(version1, version2);
    match op
    case VerAny => return true;
    case VerEqual => return r == 0;
    case VerLess => return r < 0;
    case VerLessEqual => return r <= 0;
    case VerMore => return r > 0;
    case VerMoreEqual => return r >= 0;
    case VerNull => return false;
  }

  // Versions that compare equal meet the same restrictions.
  lemma EqualVersionsMeet(v1: seq<Char>, v2: seq<Char>, wanted: seq<Char>, op: Operator)
    requires VersionOrder(v1, v2) == 0
    ensures Meets(v1, wanted, op) == Meets(v2, wanted, op)
  {
    hide VersionOrder;
    VersionPreorder(v1, v2, wanted);
  }
}
