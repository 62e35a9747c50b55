/** lzo_adler32: the checksum of section 2.2 of RFC 1950 with the reductions
    put off for as long as 32 bits allow. */
module Adler {
  import opened Arith
  import opened Bits

  const BASE: nat := 65521
  const NMAX: nat := 5552

  // ---------- the definition ----------

  datatype Sums = Sums(s1: nat, s2: nat)

  // One byte at a time, reduced after every byte.
  function Update(s: Sums, bytes: seq<Byte>): (r: Sums)
    ensures bytes != [] ==> r.s1 < BASE && r.s2 < BASE
  {
    if bytes == [] then s
    else
      var t := Update(s, bytes[..|bytes| - 1]);
      var s1 := (t.s1 + bytes[|bytes| - 1]) % BASE;
      Sums(s1, (t.s2 + s1) % BASE)
  }

  function Unpack(adler: nat): Sums
  {
    Sums(adler % 0x1_0000, adler / 0x1_0000 % 0x1_0000)
  }

  function Pack(s: Sums): nat
  {
    s.s2 * 0x1_0000 + s.s1
  }

  // The checksum of `bytes`, continuing from `adler`.
  function Checksum(adler: nat, bytes: seq<Byte>): nat
  {
    Pack(Update(Unpack(adler), bytes))
  }

  lemma {:induction false} UpdateConcat(s: Sums, a: seq<Byte>, b: seq<Byte>)
    ensures Update(s, a + b) == Update(Update(s, a), b)
    decreases |b|
  {
    if b == [] {
      assert a + b == a;
    } else {
      assert (a + b)[..|a + b| - 1] == a + b[..|b| - 1];
      UpdateConcat(s, a, b[..|b| - 1]);
    }
  }

  lemma UnpackPack(s: Sums)
    requires s.s1 < 0x1_0000 && s.s2 < 0x1_0000
    ensures Unpack(Pack(s)) == s
  {
  }

  // Hashing a concatenation is hashing the pieces in turn.
  lemma ChecksumConcat(adler: nat, a: seq<Byte>, b: seq<Byte>)
    requires adler < 0x1_0000_0000
    ensures Checksum(adler, a + b) == Checksum(Checksum(adler, a), b)
  {
    hide Update;
    UpdateConcat(Unpack(adler), a, b);
    UpdateSmall(Unpack(adler), a);
    UnpackPack(Update(Unpack(adler), a));
  }

  lemma UpdateSmall(s: Sums, bytes: seq<Byte>)
    requires s.s1 < 0x1_0000 && s.s2 < 0x1_0000
    ensures Update(s, bytes).s1 < 0x1_0000 && Update(s, bytes).s2 < 0x1_0000
  {
  }

  // ---------- putting off the reduction ----------

  // 1 + 2 + ... + n
  function Triangle(n: nat): nat
  {
    if n == 0 then 0 else Triangle(n - 1) + n
  }

  lemma {:induction false} TriangleIs(n: nat)
    ensures 2 * Triangle(n) == n * (n + 1)
  {
    if n > 0 {
      TriangleIs(n - 1);
    }
  }

  lemma {:induction false} TriangleMono(m: nat, n: nat)
    requires m <= n
    ensures Triangle(m) <= Triangle(n)
    decreases n
  {
    if m < n {
      TriangleMono(m, n - 1);
    }
  }

  // The largest sums after `i` bytes without a reduction.
  function Most1(i: nat): nat
  {
    65535 + 255 * i
  }

  function Most2(i: nat): nat
  {
    65535 + 65535 * i + 255 * Triangle(i)
  }

  lemma NeverOverflows(i: nat)
    requires i <= NMAX
    ensures Most1(i) < 0x1_0000_0000 && Most2(i) < 0x1_0000_0000
  {
    TriangleIs(NMAX);
    TriangleMono(i, NMAX);
  }

  // The sums agree with the definition up to multiples of BASE.
  ghost predicate Agrees(s1: nat, s2: nat, t: Sums)
  {
    s1 % BASE == t.s1 % BASE && s2 % BASE == t.s2 % BASE
  }

  lemma AgreesStep(s1: nat, s2: nat, t: Sums, b: Byte)
    requires Agrees(s1, s2, t)
    ensures var n := (t.s1 + b) % BASE;
            Agrees(s1 + b, s2 + s1 + b, Sums(n, (t.s2 + n) % BASE))
  {
    SameMod(s1, t.s1, b);
    var n := (t.s1 + b) % BASE;
    SameMod(s2, t.s2, s1 + b);
    SameMod(s1 + b, n, t.s2);
  }

  lemma SameMod(x: int, y: int, z: int)
    requires x % BASE == y % BASE
    ensures (x + z) % BASE == (y + z) % BASE
  {
    var q := x / BASE - y / BASE;
    assert x + z == (y + z) + q * BASE;
    ModShift(y + z, q, BASE);
  }

  lemma UpdateNext(s: Sums, buf: seq<Byte>, n: nat)
    requires n < |buf|
    ensures var t := Update(s, buf[..n]);
            var s1 := (t.s1 + buf[n]) % BASE;
            Update(s, buf[..n + 1]) == Sums(s1, (t.s2 + s1) % BASE)
  {
    assert buf[..n + 1][..n] == buf[..n];
  }

  // Up to NMAX bytes without a reduction.
  method AddChunk(s10: nat, s20: nat, buf: seq<Byte>, from: nat, k0: nat, ghost start: Sums)
    returns (s1: nat, s2: nat)
    requires s10 < 0x1_0000 && s20 < 0x1_0000 && 1 <= k0 <= NMAX && from + k0 <= |buf|
    requires Agrees(s10, s20, Update(start, buf[..from]))
    ensures Agrees(s1, s2, Update(start, buf[..from + k0]))
  {
    hide Update, Agrees, Most1, Most2, U32;
    s1, s2 := s10, s20;
    var k, i := k0, from;
    MostAtFirst();
    while true
      invariant 1 <= k <= k0 && i == from + (k0 - k)
      invariant s1 <= Most1(k0 - k) && s2 <= Most2(k0 - k)
      invariant Agrees(s1, s2, Update(start, buf[..i]))
      decreases k
    {
      StillFits(s1, s2, buf[i], k0 - k);
      AgreesStep(s1, s2, Update(start, buf[..i]), buf[i]);
      UpdateNext(start, buf, i);
      s1 := U32(s1 + buf[i]);
      s2 := U32(s2 + s1);
      i := i + 1;
      k := k - 1;
      if k == 0 {
        break;
      }
    }
  }

  lemma MostAtFirst()
    ensures Most1(0) == 65535 && Most2(0) == 65535
  {
  }

  lemma StillFits(s1: nat, s2: nat, b: Byte, n: nat)
    requires s1 <= Most1(n) && s2 <= Most2(n) && n < NMAX
    ensures U32(s1 + b) == s1 + b <= Most1(n + 1) && U32(s2 + s1 + b) == s2 + s1 + b <= Most2(n + 1)
  {
    NeverOverflows(n + 1);
    assert Most2(n + 1) == Most2(n) + Most1(n + 1);
  }

  // Equal to the definition for every start value; no intermediate sum passes
  // 32 bits. Without a buffer the result is the initial value.
  method Adler32(adler: nat, present: bool, buf: seq<Byte>) returns (r: nat)
    requires adler < 0x1_0000_0000
    ensures r == if present then Checksum(adler, buf) else 1
  {
    hide Update, Agrees;
    ghost var start := Unpack(adler);
    if !present {
      return 1;
    }
    var s1: nat, s2: nat := adler % 0x1_0000, adler / 0x1_0000 % 0x1_0000;
    var len, at: nat := |buf|, 0;
    assert Update(start, buf[..0]) == start by { UpdateNone(start); }
    assert Agrees(s1, s2, start) by { AgreesSelf(start); }
    while len > 0
      invariant 0 <= len && at + len == |buf| && s1 < 0x1_0000 && s2 < 0x1_0000
      invariant Agrees(s1, s2, Update(start, buf[..at]))
      invariant at == 0 ==> Sums(s1, s2) == start
      invariant at > 0 ==> s1 < BASE && s2 < BASE
    {
      var k := if len < NMAX then len else NMAX;
      len := len - k;
      s1, s2 := AddChunk(s1, s2, buf, at, k, start);
      AgreesReduced(s1, s2, Update(start, buf[..at + k]));
      s1 := s1 % BASE;
      s2 := s2 % BASE;
      at := at + k;
    }
    assert buf[..at] == buf;
    Settled(s1, s2, start, buf);
    r := s2 * 0x1_0000 + s1;
  }

  lemma UpdateNone(s: Sums)
    ensures Update(s, []) == s
  {
  }

  lemma AgreesSelf(s: Sums)
    ensures Agrees(s.s1, s.s2, s)
  {
  }

  lemma AgreesReduced(s1: nat, s2: nat, t: Sums)
    requires Agrees(s1, s2, t)
    ensures Agrees(s1 % BASE, s2 % BASE, t)
  {
  }

  lemma Settled(s1: nat, s2: nat, start: Sums, buf: seq<Byte>)
    requires Agrees(s1, s2, Update(start, buf))
    requires buf == [] ==> Sums(s1, s2) == start
    requires buf != [] ==> s1 < BASE && s2 < BASE
    ensures Update(start, buf) == Sums(s1, s2)
  {
    if buf == [] {
      UpdateNone(start);
    } else {
      hide Update;
    }
  }
}
