/** What the version order says about characters, and how a version string is
    taken apart. */
module VersionLaws {
  import opened Arith
  import opened Version

  const TILDE: Char := 126

  predicate Letter(c: Char)
  {
    65 <= c <= 90 || 97 <= c <= 122
  }

  // Neither letter nor digit nor tilde.
  predicate Other(c: Char)
  {
    !Letter(c) && !(48 <= c <= 57) && c != TILDE
  }

  // ---------- behind a common beginning ----------

  // `s` does not go on with a number.
  predicate Opens(s: seq<Char>)
  {
    s == [] || !IsDigit(s[0])
  }

  lemma SameDigits(v: seq<Char>, s: seq<Char>)
    requires Opens(s)
    ensures DigitCount(v + s) == DigitCount(v)
  {
    var n, m := DigitCount(v), DigitCount(v + s);
    assert forall i :: 0 <= i < |v| ==> (v + s)[i] == v[i];
    assert n == |v| && s != [] ==> (v + s)[n] == s[0];
  }

  lemma {:induction false} KeyConcat(v: seq<Char>, s: seq<Char>)
    requires Opens(s)
    ensures Key(v + s) == Key(v) + Key(s)
    decreases |v|
  {
    hide Value, Key;
    if v == [] {
      assert v + s == s && Key(v) == [] by { NoKey(); }
    } else {
      KeyStep(v);
      KeyStep(v + s);
      if IsDigit(v[0]) {
        var n := DigitCount(v);
        SameDigits(v, s);
        assert (v + s)[..n] == v[..n] && (v + s)[n..] == v[n..] + s;
        KeyConcat(v[n..], s);
      } else {
        assert (v + s)[1..] == v[1..] + s;
        KeyConcat(v[1..], s);
      }
    }
  }

  lemma NoKey()
    ensures Key([]) == []
  {
  }

  lemma KeyStep(v: seq<Char>)
    requires v != []
    ensures Key(v) == if IsDigit(v[0]) then [0, Value(v[..DigitCount(v)])] + Key(v[DigitCount(v)..])
                      else [Order(v[0])] + Key(v[1..])
  {
    hide Value;
  }

  lemma {:induction false} LexConcat(a: seq<int>, b: seq<int>, c: seq<int>)
    ensures Lex(a + b, a + c) == Lex(b, c)
    decreases |a|
  {
    if a == [] {
      assert a + b == b && a + c == c;
    } else {
      assert Rest(a + b) == a[1..] + b && Rest(a + c) == a[1..] + c;
      LexConcat(a[1..], b, c);
    }
  }

  // The first characters behind the common beginning decide by their weights.
  lemma FirstDecides(v: seq<Char>, s: seq<Char>, t: seq<Char>)
    requires Opens(s) && Opens(t) && Order(Front(s)) != Order(Front(t))
    ensures Policy(v + s, v + t) == Compare(Order(Front(s)), Order(Front(t)))
  {
    hide Policy, Key, Lex, Order;
    KeyIsPolicy(v + s, v + t);
    KeyConcat(v, s);
    KeyConcat(v, t);
    LexConcat(Key(v), Key(s), Key(t));
    KeyFront(s);
    KeyFront(t);
    LexStep(Key(s), Key(t));
  }

  // ---------- the order of characters ----------

  // A tilde sorts before everything, even before the end.
  lemma TildeFirst(v: seq<Char>, w: seq<Char>, x: seq<Char>)
    requires x == [] || Letter(x[0]) || Other(x[0])
    ensures Policy(v + [TILDE] + w, v + x) == -1
  {
    hide Policy;
    assert v + [TILDE] + w == v + ([TILDE] + w);
    FirstDecides(v, [TILDE] + w, x);
  }

  lemma TildeBeforeEnd(v: seq<Char>, w: seq<Char>)
    ensures Policy(v + [TILDE] + w, v) == -1
  {
    hide Policy;
    TildeFirst(v, w, []);
    assert v + [] == v;
  }

  // The end sorts before letters, and letters before all other characters.
  lemma EndFirst(v: seq<Char>, c: Char, x: seq<Char>)
    requires Letter(c) || Other(c)
    ensures Policy(v, v + [c] + x) == -1
  {
    hide Policy;
    assert v + [c] + x == v + ([c] + x) && v + [] == v;
    FirstDecides(v, [], [c] + x);
  }

  lemma LettersFirst(v: seq<Char>, a: Char, x: seq<Char>, p: Char, y: seq<Char>)
    requires Letter(a) && Other(p)
    ensures Policy(v + [a] + x, v + [p] + y) == -1
  {
    hide Policy;
    assert v + [a] + x == v + ([a] + x) && v + [p] + y == v + ([p] + y);
    FirstDecides(v, [a] + x, [p] + y);
  }

  // Within each of the two groups characters sort by their codes.
  lemma CodesDecide(v: seq<Char>, a: Char, x: seq<Char>, b: Char, y: seq<Char>)
    requires a < b && ((Letter(a) && Letter(b)) || (Other(a) && Other(b)))
    ensures Policy(v + [a] + x, v + [b] + y) == -1
  {
    hide Policy;
    assert v + [a] + x == v + ([a] + x) && v + [b] + y == v + ([b] + y);
    FirstDecides(v, [a] + x, [b] + y);
  }

  // Numbers behind the same beginning sort by their values.
  lemma NumbersByValue(v: seq<Char>, d: seq<Char>, s: seq<Char>, e: seq<Char>, t: seq<Char>)
    requires v == [] || !IsDigit(v[|v| - 1])
    requires d != [] && e != [] && AllDigits(d) && AllDigits(e) && Opens(s) && Opens(t) && Value(d) < Value(e)
    ensures Policy(v + (d + s), v + (e + t)) == -1
  {
    hide Policy, Key, Lex, Value;
    KeyIsPolicy(v + (d + s), v + (e + t));
    NumberOpens(v, d, s);
    NumberOpens(v, e, t);
    LexConcat(Key(v), Key(d + s), Key(e + t));
    NumberFront(d, s);
    NumberFront(e, t);
    NumbersDecide(d + s, e + t);
  }

  lemma NumberFront(d: seq<Char>, s: seq<Char>)
    requires AllDigits(d) && Opens(s)
    ensures DigitCount(d + s) == |d| && (d + s)[..|d|] == d
  {
    SameDigits(d, s);
  }

  // A number starts a new part, unless it continues one.
  lemma {:induction false} NumberOpens(v: seq<Char>, d: seq<Char>, s: seq<Char>)
    requires (v == [] || !IsDigit(v[|v| - 1])) && d != [] && AllDigits(d)
    ensures Key(v + (d + s)) == Key(v) + Key(d + s)
    decreases |v|
  {
    hide Value, Key;
    var w := v + (d + s);
    if v == [] {
      assert w == d + s && Key(v) == [] by { NoKey(); }
    } else {
      KeyStep(v);
      KeyStep(w);
      if IsDigit(v[0]) {
        var n := DigitCount(v);
        assert n < |v| && w[n] == v[n] && forall i :: 0 <= i < n ==> w[i] == v[i];
        assert DigitCount(w) == n;
        assert w[..n] == v[..n] && w[n..] == v[n..] + (d + s);
        NumberOpens(v[n..], d, s);
      } else {
        assert w[1..] == v[1..] + (d + s);
        NumberOpens(v[1..], d, s);
      }
    }
  }

  // ---------- epoch, upstream version and revision ----------

  lemma FindAt(a: seq<Char>, c: Char, b: seq<Char>)
    requires c !in a
    ensures Find(a + [c] + b, c, 0) == |a|
  {
    var s := a + [c] + b;
    assert s[|a|] == c && forall i :: 0 <= i < |a| ==> s[i] == a[i];
  }

  lemma LastIs(s: seq<Char>, c: Char, k: nat)
    requires k < |s| && s[k] == c && forall i :: k < i < |s| ==> s[i] != c
    ensures FindLast(s, c, |s|) == k
  {
    hide FindLast;
    assert FindLast(s, c, |s|) >= k;
  }

  lemma Behind(a: seq<Char>, c: Char, b: seq<Char>)
    requires c !in b
    ensures (a + [c] + b)[|a|] == c && forall i :: |a| < i < |a| + 1 + |b| ==> (a + [c] + b)[i] != c
  {
    forall i | |a| < i < |a| + 1 + |b|
      ensures (a + [c] + b)[i] != c
    {
      var j := i - |a| - 1;
      assert (a + [c] + b)[i] == b[j] && b[j] in b;
    }
  }

  lemma FindLastAt(a: seq<Char>, c: Char, b: seq<Char>)
    requires c !in b
    ensures FindLast(a + [c] + b, c, |a| + 1 + |b|) == |a|
  {
    hide FindLast;
    var s := a + [c] + b;
    Behind(a, c, b);
    LastIs(s, c, |a|);
  }

  lemma FindNone(a: seq<Char>, c: Char)
    requires c !in a
    ensures Find(a, c, 0) == |a| && FindLast(a, c, |a|) == -1
  {
  }

  lemma AtoiIs(e: seq<Char>, rest: seq<Char>)
    requires e != [] && AllDigits(e) && Value(e) < 0x1_0000_0000 && Opens(rest)
    ensures Atoi(e + rest) == Value(e)
  {
    hide Value;
    NumberFront(e, rest);
    assert SkipSpaces(e + rest) == e + rest;
  }

  // A version written with all three parts is taken apart again, whatever colons
  // and dashes the upstream version has.
  lemma SplitWhole(e: seq<Char>, u: seq<Char>, r: seq<Char>)
    requires e != [] && AllDigits(e) && Value(e) < 0x1_0000_0000 && DASH !in r
    ensures Split(e + [COLON] + (u + [DASH] + r)) == Fields(Value(e), u, r)
  {
    hide Value, Atoi, Find, FindLast;
    var rest := u + [DASH] + r;
    var s := e + [COLON] + rest;
    FindAt(e, COLON, rest);
    assert s == e + ([COLON] + rest);
    AtoiIs(e, [COLON] + rest);
    assert s[|e| + 1..] == rest;
    FindLastAt(u, DASH, r);
    assert rest[..|u|] == u && rest[|u| + 1..] == r;
  }

  // Without a colon the epoch is 0, and without a dash there is no revision.
  lemma SplitPlain(u: seq<Char>, r: seq<Char>)
    requires COLON !in u && COLON !in r && DASH !in r
    ensures Split(u + [DASH] + r) == Fields(0, u, r)
    ensures DASH !in u ==> Split(u) == Fields(0, u, [])
  {
    hide Value, Atoi, Find, FindLast;
    var s := u + [DASH] + r;
    FindNone(s, COLON);
    FindNone(u, COLON);
    FindLastAt(u, DASH, r);
    assert s[..|u|] == u && s[|u| + 1..] == r;
    if DASH !in u {
      FindNone(u, DASH);
    }
  }

  // A larger epoch wins over everything else.
  lemma EpochFirst(e: seq<Char>, f: seq<Char>, u: seq<Char>, v: seq<Char>, r: seq<Char>, t: seq<Char>)
    requires e != [] && f != [] && AllDigits(e) && AllDigits(f) && Value(e) < Value(f) < 0x1_0000_0000
    requires DASH !in r && DASH !in t
    ensures VersionOrder(e + [COLON] + (u + [DASH] + r), f + [COLON] + (v + [DASH] + t)) < 0
  {
    hide Value, Split, Policy;
    SplitWhole(e, u, r);
    SplitWhole(f, v, t);
  }

  // A version with a tilde precedes the one that ends there.
  lemma PreRelease(v: seq<Char>, w: seq<Char>)
    requires COLON !in v && DASH !in v && COLON !in w && DASH !in w
    ensures VersionOrder(v + [TILDE] + w, v) < 0
  {
    hide Split, Policy;
    SplitPlain(v + [TILDE] + w, []);
    SplitPlain(v, []);
    TildeBeforeEnd(v, w);
  }
}
