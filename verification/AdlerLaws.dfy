/** The two sums of Adler-32 in closed form. */
module AdlerLaws {
  import opened Arith
  import opened Bits
  import opened Adler

  // The sum of the first `k` bytes.
  function Total(bytes: seq<Byte>, k: nat): nat
    requires k <= |bytes|
  {
    if k == 0 then 0 else Total(bytes, k - 1) + bytes[k - 1]
  }

  // The sum of (n - i) times byte i over the first `k` bytes.
  function Weighted(bytes: seq<Byte>, n: nat, k: nat): nat
    requires k <= |bytes| && k <= n
  {
    if k == 0 then 0 else Weighted(bytes, n, k - 1) + (n - (k - 1)) * bytes[k - 1]
  }

  // One byte more adds one to every weight.
  lemma {:induction false} WeightsGrow(bytes: seq<Byte>, n: nat, k: nat)
    requires k <= |bytes| && k <= n
    ensures Weighted(bytes, n + 1, k) == Weighted(bytes, n, k) + Total(bytes, k)
    decreases k
  {
    if k > 0 {
      WeightsGrow(bytes, n, k - 1);
      var w, b := n - (k - 1), bytes[k - 1];
      assert (w + 1) * b == w * b + b;
    }
  }

  lemma {:induction false} FrontSums(bytes: seq<Byte>, m: nat, n: nat, k: nat)
    requires k <= m <= |bytes| && k <= n
    ensures Total(bytes[..m], k) == Total(bytes, k) && Weighted(bytes[..m], n, k) == Weighted(bytes, n, k)
    decreases k
  {
    if k > 0 {
      FrontSums(bytes, m, n, k - 1);
    }
  }

  lemma AddMod(a: nat, b: nat)
    ensures (a % 65521 + b) % 65521 == (a + b) % 65521
  {
    ModShift(a % 65521 + b, a / 65521, 65521);
    assert a == a / 65521 * 65521 + a % 65521;
  }

  lemma UpdateNext(s: Sums, bytes: seq<Byte>)
    requires bytes != []
    ensures var t := Update(s, bytes[..|bytes| - 1]);
            var s1 := (t.s1 + bytes[|bytes| - 1]) % 65521;
            Update(s, bytes) == Sums(s1, (t.s2 + s1) % 65521)
  {
  }

  // From the start value 1: the first sum is one more than the sum of all bytes,
  // the second the sum of all values that the first has had, modulo 65521.
  lemma {:induction false} ClosedForm(bytes: seq<Byte>)
    ensures var n := |bytes|;
            Update(Sums(1, 0), bytes) == Sums((1 + Total(bytes, n)) % 65521, (n + Weighted(bytes, n, n)) % 65521)
    decreases |bytes|
  {
    hide Update, Total, Weighted;
    var n := |bytes|;
    if n == 0 {
      UpdateNone(Sums(1, 0));
      NoSums(bytes);
    } else {
      var m := n - 1;
      ClosedForm(bytes[..m]);
      UpdateNext(Sums(1, 0), bytes);
      FrontSums(bytes, m, m, m);
      WeightsGrow(bytes, m, m);
      LastByte(bytes);
      NextSums(1 + Total(bytes, m), m + Weighted(bytes, m, m), bytes[m]);
    }
  }

  lemma NoSums(bytes: seq<Byte>)
    ensures Total(bytes, 0) == 0 && Weighted(bytes, 0, 0) == 0
  {
  }

  lemma LastByte(bytes: seq<Byte>)
    requires bytes != []
    ensures var n := |bytes|;
            Total(bytes, n) == Total(bytes, n - 1) + bytes[n - 1] &&
                Weighted(bytes, n, n) == Weighted(bytes, n, n - 1) + bytes[n - 1]
  {
  }

  lemma NextSums(x: nat, y: nat, b: nat)
    ensures (x % 65521 + b) % 65521 == (x + b) % 65521
    ensures (y % 65521 + (x % 65521 + b) % 65521) % 65521 == (y + x + b) % 65521
  {
    AddMod(x, b);
    AddMod(x + b, y % 65521);
    AddMod(y, x + b);
  }

  // The checksum that lzop writes for a block.
  lemma ChecksumIs(bytes: seq<Byte>)
    ensures var n := |bytes|;
            Checksum(1, bytes) == (n + Weighted(bytes, n, n)) % 65521 * 65536 + (1 + Total(bytes, n)) % 65521
  {
    hide Update, Weighted, Total;
    ClosedForm(bytes);
  }
}
