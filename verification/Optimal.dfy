/** Huffman's argument: merging the two lightest items never loses against any
    assignment of code lengths that fits the code space. Items are numbers in a
    finite set, `w` is their weight, `l` assigns lengths. */
module Optimal {
  import opened Arith

  // Code space taken by one code, in units of 2^-top.
  function Room(len: nat, top: nat): nat
  {
    if len <= top then Pow2(top - len) else 0
  }

  ghost function CostFn(w: nat -> nat, l: nat -> nat): nat -> int
  {
    (v: nat) => w(v) * l(v)
  }

  ghost function SpaceFn(l: nat -> nat, top: nat): nat -> int
  {
    (v: nat) => Room(l(v), top)
  }

  ghost function TotalCost(s: set<nat>, w: nat -> nat, l: nat -> nat): int
  {
    SumSet(s, CostFn(w, l))
  }

  ghost function Space(s: set<nat>, l: nat -> nat, top: nat): int
  {
    SumSet(s, SpaceFn(l, top))
  }

  // The lengths fit: the sum of 2^-l over `s` is at most one.
  ghost predicate Fits(s: set<nat>, l: nat -> nat, top: nat)
  {
    (forall v :: v in s ==> l(v) <= top) && Space(s, l, top) <= Pow2(top)
  }

  // Every assignment on `s0` costs at least `done` more than some assignment on `s`.
  ghost predicate Reaches(s0: set<nat>, w0: nat -> nat, s: set<nat>, w: nat -> nat, done: int)
  {
    forall l0: nat -> nat, top: nat :: Fits(s0, l0, top) ==>
      exists l: nat -> nat :: Fits(s, l, top) && TotalCost(s0, w0, l0) >= TotalCost(s, w, l) + done
  }

  ghost function Update(l: nat -> nat, x: nat, v: nat): (r: nat -> nat)
    ensures r(x) == v && forall y :: y != x ==> r(y) == l(y)
  {
    (y: nat) => if y == x then v else l(y)
  }

  // ---------- one element at a time ----------

  lemma TakeOut(s: set<nat>, w: nat -> nat, l: nat -> nat, top: nat, x: nat)
    requires x in s
    ensures TotalCost(s, w, l) == w(x) * l(x) + TotalCost(s - {x}, w, l)
    ensures Space(s, l, top) == Room(l(x), top) + Space(s - {x}, l, top)
  {
    SumSetRemove(s, x, CostFn(w, l));
    SumSetRemove(s, x, SpaceFn(l, top));
  }

  lemma Same(s: set<nat>, w: nat -> nat, l: nat -> nat, w': nat -> nat, l': nat -> nat, top: nat)
    requires forall v :: v in s ==> w(v) == w'(v) && l(v) == l'(v)
    ensures TotalCost(s, w, l) == TotalCost(s, w', l')
    ensures Space(s, l, top) == Space(s, l', top)
  {
    SumSetCongruent(s, CostFn(w, l), CostFn(w', l'));
    SumSetCongruent(s, SpaceFn(l, top), SpaceFn(l', top));
  }

  lemma NonNegative(s: set<nat>, w: nat -> nat, l: nat -> nat, top: nat)
    ensures TotalCost(s, w, l) >= 0 && Space(s, l, top) >= 0
  {
    SumSetNonneg(s, CostFn(w, l));
    SumSetNonneg(s, SpaceFn(l, top));
  }

  lemma Change(s: set<nat>, w: nat -> nat, l: nat -> nat, top: nat, x: nat, v: nat)
    requires x in s
    ensures TotalCost(s, w, Update(l, x, v)) == TotalCost(s, w, l) - w(x) * l(x) + w(x) * v
    ensures Space(s, Update(l, x, v), top) == Space(s, l, top) - Room(l(x), top) + Room(v, top)
  {
    hide TotalCost, Space, Room;
    var l' := Update(l, x, v);
    TakeOut(s, w, l, top, x);
    TakeOut(s, w, l', top, x);
    Same(s - {x}, w, l, w, l', top);
  }

  // ---------- the exchange argument ----------

  lemma SwapLoses(a: nat, b: nat, la: nat, lb: nat)
    requires a <= b && la <= lb
    ensures a * la + b * lb >= a * lb + b * la
  {
    var d, e := b - a, lb - la;
    assert d * e >= 0;
    assert (a + d) * (la + e) == a * la + a * e + d * la + d * e;
    assert (a + d) * la == a * la + d * la;
    assert a * (la + e) == a * la + a * e;
  }

  ghost function Swap(l: nat -> nat, x: nat, y: nat): (r: nat -> nat)
    ensures r(y) == l(x) && r(x) == l(y) && forall v :: v != x && v != y ==> r(v) == l(v)
  {
    Update(Update(l, x, l(y)), y, l(x))
  }

  // Giving the lighter item the longer code costs no more.
  lemma Exchange(s: set<nat>, w: nat -> nat, l: nat -> nat, top: nat, x: nat, p: nat)
    requires Fits(s, l, top) && x in s && p in s
    requires w(x) <= w(p) && l(x) <= l(p)
    ensures Fits(s, Swap(l, x, p), top)
    ensures TotalCost(s, w, Swap(l, x, p)) <= TotalCost(s, w, l)
  {
    hide TotalCost, Space, Room, Pow2;
    if x == p {
      Same(s, w, l, w, Swap(l, x, p), top);
    } else {
      var l1 := Update(l, x, l(p));
      Change(s, w, l, top, x, l(p));
      Change(s, w, l1, top, p, l(x));
      SwapLoses(w(x), w(p), l(x), l(p));
    }
  }

  lemma {:induction false} Longest(s: set<nat>, l: nat -> nat) returns (p: nat)
    requires s != {}
    ensures p in s && forall v :: v in s ==> l(v) <= l(p)
    decreases |s|
  {
    p :| p in s;
    var rest := s - {p};
    if rest != {} {
      var q := Longest(rest, l);
      if l(p) < l(q) {
        p := q;
      }
    }
  }

  // Lengths can be permuted so that the two lightest items are the longest.
  lemma LightestLongest(s: set<nat>, w: nat -> nat, l: nat -> nat, top: nat, x: nat, y: nat) returns (m: nat -> nat)
    requires Fits(s, l, top) && x in s && y in s && x != y
    requires forall v :: v in s ==> w(x) <= w(v)
    requires forall v :: v in s && v != x ==> w(y) <= w(v)
    ensures Fits(s, m, top) && TotalCost(s, w, m) <= TotalCost(s, w, l)
    ensures m(y) <= m(x)
    ensures forall v :: v in s && v != x ==> m(v) <= m(y)
  {
    hide TotalCost, Fits, Swap;
    var p := Longest(s, l);
    Exchange(s, w, l, top, x, p);
    var l1 := Swap(l, x, p);
    var rest := s - {x};
    assert y in rest;
    var q := Longest(rest, l1);
    Exchange(s, w, l1, top, y, q);
    m := Swap(l1, y, q);
  }

  // Codes no longer than `k` take multiples of 2^(top-k).
  lemma {:induction false} SumMultiple(s: set<nat>, l: nat -> nat, top: nat, k: nat)
    requires k <= top && forall v :: v in s ==> l(v) <= k
    ensures Space(s, l, top) % Pow2(top - k) == 0
    decreases |s|
  {
    hide Pow2, Space;
    if s == {} {
      EmptySpace(l, top);
    } else {
      var x :| x in s;
      SumMultiple(s - {x}, l, top, k);
      var m, q, r := Pow2(top - k), Pow2(k - l(x)), Space(s - {x}, l, top);
      assert Space(s, l, top) == r + q * m by {
        TakeOut(s, l, l, top, x);
        Pow2Add(k - l(x), top - k);
      }
      ModShift(r, q, m);
    }
  }

  lemma EmptySpace(l: nat -> nat, top: nat)
    ensures Space({}, l, top) == 0
  {
  }

  lemma MultipleGap(a: nat, b: nat, u: nat)
    requires u > 0 && a % u == 0 && b % u == 0 && a < b
    ensures a + u <= b
  {
    var i, j := a / u, b / u;
    assert a == i * u && b == j * u;
    if j <= i {
      MulMono(j, i, u);
    }
    MulMono(i + 1, j, u);
    assert (i + 1) * u == i * u + u;
  }

  // The longest code can be shortened to the second longest.
  lemma ShortenLongest(s: set<nat>, w: nat -> nat, l: nat -> nat, top: nat, x: nat, y: nat)
    requires Fits(s, l, top) && x in s && y in s && x != y
    requires l(y) <= l(x) && forall v :: v in s && v != x ==> l(v) <= l(y)
    ensures Fits(s, Update(l, x, l(y)), top)
    ensures TotalCost(s, w, Update(l, x, l(y))) <= TotalCost(s, w, l)
  {
    hide Pow2, Space, TotalCost;
    var k := l(y);
    var rest := s - {x};
    TakeOut(s, w, l, top, x);
    Change(s, w, l, top, x, k);
    assert w(x) * k <= w(x) * l(x) by { MulMono(k, l(x), w(x)); }
    SumMultiple(rest, l, top, k);
    NonNegative(rest, w, l, top);
    Pow2Add(k, top - k);
    ModShift(0, Pow2(k), Pow2(top - k));
    MultipleGap(Space(rest, l, top), Pow2(top), Pow2(top - k));
  }

  // Of two items, neither can have the empty code.
  lemma LengthPositive(s: set<nat>, l: nat -> nat, top: nat, x: nat, y: nat)
    requires Fits(s, l, top) && x in s && y in s && x != y
    ensures l(x) > 0
  {
    hide Pow2, Space;
    TakeOut(s, l, l, top, x);
    TakeOut(s - {x}, l, l, top, y);
    NonNegative(s - {x} - {y}, l, l, top);
  }

  lemma MergeCost(a: nat, b: nat, l: nat)
    requires l > 0
    ensures a * l + b * l == (a + b) * (l - 1) + a + b
  {
  }

  // Two items of equal length give their father a code one bit shorter.
  lemma JoinPair(s: set<nat>, w: nat -> nat, l: nat -> nat, top: nat, x: nat, y: nat, z: nat, w': nat -> nat)
    requires Fits(s, l, top) && x in s && y in s && x != y && z !in s && l(x) == l(y) > 0
    requires w'(z) == w(x) + w(y) && forall v :: v in s ==> w'(v) == w(v)
    ensures Fits(s - {x, y} + {z}, Update(l, z, l(x) - 1), top)
    ensures TotalCost(s, w, l) == TotalCost(s - {x, y} + {z}, w', Update(l, z, l(x) - 1)) + w(x) + w(y)
  {
    hide Pow2, Space, TotalCost;
    var m := Update(l, z, l(x) - 1);
    var joined := s - {x, y} + {z};
    TakeOut(s, w, l, top, x);
    TakeOut(s - {x}, w, l, top, y);
    TakeOut(joined, w', m, top, z);
    assert joined - {z} == s - {x} - {y};
    Same(s - {x} - {y}, w, l, w', m, top);
    Pow2Next(top - l(x));
    MergeCost(w(x), w(y), l(x));
  }

  // Replacing the two lightest items by their father.
  lemma MergeTwo(s: set<nat>, w: nat -> nat, l: nat -> nat, top: nat, x: nat, y: nat, z: nat, w': nat -> nat)
    returns (m: nat -> nat)
    requires Fits(s, l, top) && x in s && y in s && x != y && z !in s
    requires forall v :: v in s ==> w(x) <= w(v)
    requires forall v :: v in s && v != x ==> w(y) <= w(v)
    requires w'(z) == w(x) + w(y) && forall v :: v in s ==> w'(v) == w(v)
    ensures Fits(s - {x, y} + {z}, m, top)
    ensures TotalCost(s, w, l) >= TotalCost(s - {x, y} + {z}, w', m) + w(x) + w(y)
  {
    hide Fits, TotalCost;
    var l1 := LightestLongest(s, w, l, top, x, y);
    ShortenLongest(s, w, l1, top, x, y);
    var l2 := Update(l1, x, l1(y));
    LengthPositive(s, l2, top, x, y);
    JoinPair(s, w, l2, top, x, y, z, w');
    m := Update(l2, z, l2(x) - 1);
  }

  lemma ReachesStep(s0: set<nat>, w0: nat -> nat, s: set<nat>, w: nat -> nat, done: int,
                    x: nat, y: nat, z: nat, w': nat -> nat)
    requires Reaches(s0, w0, s, w, done)
    requires x in s && y in s && x != y && z !in s
    requires forall v :: v in s ==> w(x) <= w(v)
    requires forall v :: v in s && v != x ==> w(y) <= w(v)
    requires w'(z) == w(x) + w(y) && forall v :: v in s ==> w'(v) == w(v)
    ensures Reaches(s0, w0, s - {x, y} + {z}, w', done + w(x) + w(y))
  {
    hide Fits, TotalCost;
    forall l0: nat -> nat, top: nat | Fits(s0, l0, top)
      ensures exists l: nat -> nat ::
        Fits(s - {x, y} + {z}, l, top) && TotalCost(s0, w0, l0) >= TotalCost(s - {x, y} + {z}, w', l) + (done + w(x) + w(y))
    {
      var l: nat -> nat :| Fits(s, l, top) && TotalCost(s0, w0, l0) >= TotalCost(s, w, l) + done;
      var m := MergeTwo(s, w, l, top, x, y, z, w');
    }
  }

  lemma ReachesSelf(s: set<nat>, w: nat -> nat)
    ensures Reaches(s, w, s, w, 0)
  {
    hide Fits, TotalCost;
  }

  // What has been saved up is a lower bound for every assignment.
  lemma ReachesBound(s0: set<nat>, w0: nat -> nat, s: set<nat>, w: nat -> nat, done: int, l0: nat -> nat, top: nat)
    requires Reaches(s0, w0, s, w, done) && Fits(s0, l0, top)
    ensures TotalCost(s0, w0, l0) >= done
  {
    hide Fits, TotalCost;
    var l: nat -> nat :| Fits(s, l, top) && TotalCost(s0, w0, l0) >= TotalCost(s, w, l) + done;
    NonNegative(s, w, l, top);
  }
}
