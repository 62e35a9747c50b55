/** Double hashing with a prime table size: every probe sequence goes through
    all slots. */
module Probing {
  import opened Arith

  ghost predicate Prime(p: nat)
  {
    p >= 2 && forall m :: 2 <= m < p ==> p % m != 0
  }

  // ---------- multiples modulo a prime ----------

  lemma ModSum(a: int, b: int, m: int)
    requires m > 0 && a % m == 0 && b % m == 0
    ensures (a + b) % m == 0 && (a - b) % m == 0
  {
    var i, j := a / m, b / m;
    assert a + b == (i + j) * m + 0 && a - b == (i - j) * m + 0;
    ModUnique(a + b, m, i + j, 0);
    ModUnique(a - b, m, i - j, 0);
  }

  lemma ModTimes(q: int, a: int, m: int)
    requires m > 0 && a % m == 0
    ensures (q * a) % m == 0
  {
    var i := a / m;
    assert q * a == (q * i) * m + 0;
    ModUnique(q * a, m, q * i, 0);
  }

  // A prime divides no product of two smaller numbers.
  lemma {:induction false} NoMultiple(p: nat, d: nat, k: nat)
    requires Prime(p) && 1 <= d < p && 1 <= k < p
    ensures (k * d) % p != 0
    decreases k
  {
    if k > 1 && (k * d) % p == 0 {
      var q, r := p / k, p % k;
      assert p == q * k + r;
      NoMultiple(p, d, r);
      ModTimes(q, k * d, p);
      ModTimes(d, p, p);
      ModSum(d * p, q * (k * d), p);
      assert d * p - q * (k * d) == r * d by { Cofactor(p, d, k, q, r); }
    }
  }

  lemma Cofactor(p: int, d: int, k: int, q: int, r: int)
    requires p == q * k + r
    ensures d * p - q * (k * d) == r * d
  {
    assert q * (k * d) == (q * k) * d;
    assert d * p == (q * k) * d + r * d;
  }

  // ---------- probe sequences ----------

  // A start below the table size, and a decrement between 1 and size - 1.
  predicate Hashed(p: nat, start: nat, dec: nat)
  {
    start < p && 1 <= dec < p
  }

  function Step(p: nat, a: nat, dec: nat): (r: nat)
    requires a < p && dec < p
    ensures r < p
  {
    if a < dec then a - dec + p else a - dec
  }

  function Probe(p: nat, start: nat, dec: nat, k: nat): (r: nat)
    requires Hashed(p, start, dec)
    ensures r < p
  {
    if k == 0 then start else Step(p, Probe(p, start, dec, k - 1), dec)
  }

  lemma NextOffset(p: nat, a: nat, start: nat, dec: nat, k: nat)
    requires a < p && dec < p && k >= 1 && (a + (k - 1) * dec - start) % p == 0
    ensures (Step(p, a, dec) + k * dec - start) % p == 0
  {
    var x := a + (k - 1) * dec - start;
    assert k * dec == (k - 1) * dec + dec;
    assert a - dec + k * dec - start == x;
    if a < dec {
      ModUnique(p, p, 1, 0);
      ModSum(x, p, p);
    }
  }

  lemma {:induction false} ProbeOffset(p: nat, start: nat, dec: nat, k: nat)
    requires Hashed(p, start, dec)
    ensures (Probe(p, start, dec, k) + k * dec - start) % p == 0
    decreases k
  {
    hide Step;
    if k == 0 {
      ModUnique(0, p, 0, 0);
    } else {
      ProbeOffset(p, start, dec, k - 1);
      var a := Probe(p, start, dec, k - 1);
      NextOffset(p, a, start, dec, k);
    }
  }

  lemma ProbesDiffer(p: nat, start: nat, dec: nat, i: nat, j: nat)
    requires Prime(p) && Hashed(p, start, dec) && i < j < p
    ensures Probe(p, start, dec, i) != Probe(p, start, dec, j)
  {
    if Probe(p, start, dec, i) == Probe(p, start, dec, j) {
      ProbeOffset(p, start, dec, i);
      ProbeOffset(p, start, dec, j);
      var a := Probe(p, start, dec, i);
      ModSum(a + j * dec - start, a + i * dec - start, p);
      assert (a + j * dec - start) - (a + i * dec - start) == (j - i) * dec;
      NoMultiple(p, dec, j - i);
    }
  }

  ghost function Visited(p: nat, start: nat, dec: nat, k: nat): set<nat>
    requires Hashed(p, start, dec)
  {
    if k == 0 then {} else Visited(p, start, dec, k - 1) + {Probe(p, start, dec, k - 1)}
  }

  lemma {:induction false} VisitedFrom(p: nat, start: nat, dec: nat, k: nat, a: nat) returns (i: nat)
    requires Hashed(p, start, dec) && a in Visited(p, start, dec, k)
    ensures i < k && Probe(p, start, dec, i) == a
    decreases k
  {
    hide Probe;
    if a == Probe(p, start, dec, k - 1) {
      i := k - 1;
    } else {
      i := VisitedFrom(p, start, dec, k - 1, a);
    }
  }

  lemma {:induction false} VisitedSize(p: nat, start: nat, dec: nat, k: nat)
    requires Prime(p) && Hashed(p, start, dec) && k <= p
    ensures |Visited(p, start, dec, k)| == k
    ensures forall a :: a in Visited(p, start, dec, k) ==> a < p
    decreases k
  {
    hide Probe, Prime;
    if k > 0 {
      VisitedSize(p, start, dec, k - 1);
      var a := Probe(p, start, dec, k - 1);
      if a in Visited(p, start, dec, k - 1) {
        var i := VisitedFrom(p, start, dec, k - 1, a);
        ProbesDiffer(p, start, dec, i, k - 1);
        assert false;
      }
    }
  }

  ghost function Slots(n: nat): (r: set<nat>)
    ensures forall a: nat :: a in r <==> a < n
    ensures |r| == n
  {
    if n == 0 then {}
    else
      var s := Slots(n - 1);
      assert n - 1 !in s;
      s + {n - 1}
  }

  lemma SubsetSize(a: set<nat>, b: set<nat>)
    requires a <= b
    ensures |a| <= |b| && (|a| == |b| ==> a == b)
  {
    var rest := b - a;
    assert b == a + rest;
    assert |b| == |a| + |rest|;
  }

  // Every slot comes up among the first `p` probes.
  lemma VisitsAll(p: nat, start: nat, dec: nat, a: nat) returns (k: nat)
    requires Prime(p) && Hashed(p, start, dec) && a < p
    ensures k < p && Probe(p, start, dec, k) == a
  {
    hide Probe, Prime;
    VisitedSize(p, start, dec, p);
    SubsetSize(Visited(p, start, dec, p), Slots(p));
    k := VisitedFrom(p, start, dec, p, a);
  }

  // ---------- searching ----------

  // Slot `a` is reached from the hash without passing a free slot.
  ghost predicate Reachable(p: nat, start: nat, dec: nat, occupied: set<nat>, a: nat)
    requires Hashed(p, start, dec)
  {
    exists k: nat :: PathTo(p, start, dec, occupied, a, k)
  }

  ghost predicate PathTo(p: nat, start: nat, dec: nat, occupied: set<nat>, a: nat, k: nat)
    requires Hashed(p, start, dec)
  {
    Probe(p, start, dec, k) == a && forall i :: 0 <= i < k ==> Probe(p, start, dec, i) in occupied
  }

  // The search has passed `k` slots that are occupied and do not match.
  ghost predicate Passed(p: nat, start: nat, dec: nat, occupied: set<nat>, matching: set<nat>, k: nat)
    requires Hashed(p, start, dec)
  {
    forall i :: 0 <= i < k ==> Probe(p, start, dec, i) in occupied && Probe(p, start, dec, i) !in matching
  }

  // While there is a free or a matching slot, the search cannot pass all slots.
  lemma SearchEnds(p: nat, start: nat, dec: nat, occupied: set<nat>, matching: set<nat>, k: nat, a: nat)
    requires Prime(p) && Hashed(p, start, dec) && a < p && (a !in occupied || a in matching)
    requires Passed(p, start, dec, occupied, matching, k)
    ensures k < p
  {
    hide Probe, Prime;
    var j := VisitsAll(p, start, dec, a);
  }

  // A search that ends at a free slot has missed nothing that can be reached.
  lemma NothingMissed(p: nat, start: nat, dec: nat, occupied: set<nat>, matching: set<nat>, k: nat, a: nat)
    requires Hashed(p, start, dec) && Passed(p, start, dec, occupied, matching, k)
    requires Probe(p, start, dec, k) !in occupied
    requires a in occupied && Reachable(p, start, dec, occupied, a)
    ensures a !in matching
  {
    hide Probe;
    var j: nat :| PathTo(p, start, dec, occupied, a, j);
    PathPasses(p, start, dec, occupied, a, j, k);
  }

  lemma PathPasses(p: nat, start: nat, dec: nat, occupied: set<nat>, a: nat, j: nat, k: nat)
    requires Hashed(p, start, dec) && PathTo(p, start, dec, occupied, a, j)
    ensures k < j ==> Probe(p, start, dec, k) in occupied
  {
  }

  // More occupied slots leave everything reachable.
  lemma StaysReachable(p: nat, start: nat, dec: nat, occupied: set<nat>, more: set<nat>, a: nat)
    requires Hashed(p, start, dec) && occupied <= more && Reachable(p, start, dec, occupied, a)
    ensures Reachable(p, start, dec, more, a)
  {
    hide Probe;
    var k: nat :| PathTo(p, start, dec, occupied, a, k);
    assert PathTo(p, start, dec, more, a, k);
  }

  lemma NewlyReachable(p: nat, start: nat, dec: nat, occupied: set<nat>, matching: set<nat>, k: nat)
    requires Hashed(p, start, dec) && Passed(p, start, dec, occupied, matching, k)
    ensures Reachable(p, start, dec, occupied, Probe(p, start, dec, k))
  {
    hide Probe;
    assert PathTo(p, start, dec, occupied, Probe(p, start, dec, k), k);
  }

  // ---------- the table sizes are prime ----------

  // It is enough to try the divisors below a number whose square is larger.
  lemma RootTest(p: nat, r: nat)
    requires p >= 2 && r * r > p && forall m :: 2 <= m < r ==> p % m != 0
    ensures Prime(p)
  {
    forall m | 2 <= m < p
      ensures p % m != 0
    {
      if m >= r && p % m == 0 {
        var d := p / m;
        assert d * m == p;
        SmallCofactor(p, m, d, r);
        ModUnique(p, d, m, 0);
      }
    }
  }

  lemma SmallCofactor(p: nat, m: nat, d: nat, r: nat)
    requires d * m == p && 2 <= m < p && m >= r && r * r > p
    ensures 2 <= d < r
  {
    if d >= r {
      MulMono(r, d, m);
      MulMono(r, m, r);
    }
  }

  const NAME_HASH_PRIME: nat := 16381
  const PACKAGE_HASH_PRIME: nat := 10007
  const STATUS_HASH_PRIME: nat := 8191

  lemma NamePrime()
    ensures Prime(NAME_HASH_PRIME)
  {
    RootTest(NAME_HASH_PRIME, 128);
  }

  lemma PackagePrime()
    ensures Prime(PACKAGE_HASH_PRIME)
  {
    RootTest(PACKAGE_HASH_PRIME, 101);
  }

  lemma StatusPrime()
    ensures Prime(STATUS_HASH_PRIME)
  {
    RootTest(STATUS_HASH_PRIME, 91);
  }
}
