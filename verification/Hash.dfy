/** UPDATE_HASH: the rolling hash of three bytes. */
module Hash {
  import opened Arith
  import opened Bits

  const H_SHIFT: nat := 5

  // HASH_BITS is 13, 14 or 15, which makes H_SHIFT 5.
  predicate HashSize(bits: nat)
  {
    8 <= bits <= 15 && (bits + 2) / 3 == H_SHIFT
  }

  function UpdateHash(bits: nat, h: nat, c: Byte): (r: nat)
    ensures r < Pow2(bits)
  {
    Xor(h * Pow2(H_SHIFT), c) % Pow2(bits)
  }

  // The hash of three bytes.
  function Hash3(bits: nat, a: Byte, b: Byte, c: Byte): (r: nat)
    ensures r < Pow2(bits)
  {
    UpdateHash(bits, UpdateHash(bits, UpdateHash(bits, 0, a), b), c)
  }

  // ---------- exclusive or, bit by bit ----------

  lemma {:induction false} XorBits(a: nat, b: nat, n: nat, i: nat)
    requires i < n
    ensures ToBits(Xor(a, b), n)[i] == (ToBits(a, n)[i] != ToBits(b, n)[i])
    decreases n
  {
    XorStep(a, b);
    if i > 0 {
      XorBits(a / 2, b / 2, n - 1, i - 1);
    }
  }

  lemma ToBitsMod(v: nat, n: nat)
    ensures ToBits(v % Pow2(n), n) == ToBits(v, n)
  {
    hide ToBits, Pow2;
    var m := Pow2(n);
    DivMod(v, m);
    ToBitsLow(v % m, v / m, n);
  }

  lemma DivMod(v: nat, m: nat)
    requires m > 0
    ensures v == v % m + (v / m) * m
  {
  }

  lemma ShiftedBit(h: nat, n: nat, i: nat)
    requires i < n
    ensures ToBits(h * Pow2(H_SHIFT), n)[i] == (i >= H_SHIFT && ToBits(h, n)[i - H_SHIFT])
  {
    hide ToBits, Pow2;
    if n >= H_SHIFT {
      assert 0 + h * Pow2(H_SHIFT) == h * Pow2(H_SHIFT);
      ToBitsPlace(0, H_SHIFT, h, n - H_SHIFT);
      ZeroBits(H_SHIFT);
      PrefixBits(h, n - H_SHIFT, n);
    } else {
      SmallShift(h, n);
      ZeroBits(n);
    }
  }

  lemma SmallShift(h: nat, n: nat)
    requires n < H_SHIFT
    ensures ToBits(h * Pow2(H_SHIFT), n) == ToBits(0, n)
  {
    hide ToBits;
    Pow2Add(H_SHIFT - n, n);
    assert h * Pow2(H_SHIFT) == 0 + (h * Pow2(H_SHIFT - n)) * Pow2(n);
    ToBitsLow(0, h * Pow2(H_SHIFT - n), n);
  }

  lemma {:induction false} ZeroBits(n: nat)
    ensures forall i :: 0 <= i < n ==> !ToBits(0, n)[i]
  {
    if n > 0 {
      ZeroBits(n - 1);
    }
  }

  lemma {:induction false} PrefixBits(v: nat, m: nat, n: nat)
    requires m <= n
    ensures ToBits(v, n)[..m] == ToBits(v, m)
    decreases m
  {
    if m > 0 {
      PrefixBits(v / 2, m - 1, n - 1);
      assert ToBits(v, n)[..m] == [v % 2 == 1] + ToBits(v / 2, n - 1)[..m - 1];
    }
  }

  // One bit of an updated hash: the bit five places below in the old hash,
  // combined with the bit of the new byte.
  lemma UpdateBit(bits: nat, h: nat, c: Byte, i: nat)
    requires i < bits
    ensures ToBits(UpdateHash(bits, h, c), bits)[i] ==
            ((i >= H_SHIFT && ToBits(h, bits)[i - H_SHIFT]) != ToBits(c, bits)[i])
  {
    hide ToBits, Xor, Pow2;
    ToBitsMod(Xor(h * Pow2(H_SHIFT), c), bits);
    XorBits(h * Pow2(H_SHIFT), c, bits, i);
    ShiftedBit(h, bits, i);
  }

  // The two hashes agree on their low `k` bits.
  ghost predicate SameLow(bits: nat, g: nat, h: nat, k: nat)
  {
    forall i :: 0 <= i < k && i < bits ==> ToBits(g, bits)[i] == ToBits(h, bits)[i]
  }

  lemma UpdateAgree(bits: nat, g: nat, h: nat, c: Byte, k: nat)
    requires SameLow(bits, g, h, k)
    ensures SameLow(bits, UpdateHash(bits, g, c), UpdateHash(bits, h, c), k + H_SHIFT)
  {
    hide ToBits, UpdateHash;
    forall i | 0 <= i < k + H_SHIFT && i < bits
      ensures ToBits(UpdateHash(bits, g, c), bits)[i] == ToBits(UpdateHash(bits, h, c), bits)[i]
    {
      UpdateBit(bits, g, c, i);
      UpdateBit(bits, h, c, i);
    }
  }

  lemma SameBits(g: nat, h: nat, bits: nat)
    requires g < Pow2(bits) && h < Pow2(bits) && SameLow(bits, g, h, bits)
    ensures g == h
  {
    hide ToBits, Pow2;
    assert ToBits(g, bits) == ToBits(h, bits);
    FromToBits(g, bits);
    FromToBits(h, bits);
  }

  // After three steps the oldest byte no longer takes part in the hash.
  lemma OldByteGone(bits: nat, h: nat, a: Byte, b: Byte, c: Byte)
    requires HashSize(bits)
    ensures UpdateHash(bits, UpdateHash(bits, UpdateHash(bits, h, a), b), c) == Hash3(bits, a, b, c)
  {
    hide ToBits, UpdateHash, Pow2;
    var g1, h1 := UpdateHash(bits, 0, a), UpdateHash(bits, h, a);
    var g2, h2 := UpdateHash(bits, g1, b), UpdateHash(bits, h1, b);
    assert SameLow(bits, h, 0, 0);
    UpdateAgree(bits, h, 0, a, 0);
    UpdateAgree(bits, h1, g1, b, 5);
    UpdateAgree(bits, h2, g2, c, 10);
    SameBits(UpdateHash(bits, h2, c), Hash3(bits, a, b, c), bits);
  }

  // Two strings with equal hash and equal first two bytes have the same third byte.
  lemma ThirdByte(bits: nat, a: Byte, b: Byte, c: Byte, d: Byte)
    requires HashSize(bits) && Hash3(bits, a, b, c) == Hash3(bits, a, b, d)
    ensures c == d
  {
    hide ToBits, UpdateHash, Pow2;
    var h := UpdateHash(bits, UpdateHash(bits, 0, a), b);
    forall i | 0 <= i < bits
      ensures ToBits(c, bits)[i] == ToBits(d, bits)[i]
    {
      UpdateBit(bits, h, c, i);
      UpdateBit(bits, h, d, i);
    }
    assert Pow2(8) == 256 by { Pow2Values(); }
    Pow2Mono(8, bits);
    SameBits(c, d, bits);
  }

  // The running hash `h` has taken in the bytes `a` and `b`.
  ghost predicate Primed(bits: nat, h: nat, a: Byte, b: Byte)
  {
    exists g: nat :: h == UpdateHash(bits, UpdateHash(bits, g, a), b)
  }

  lemma PrimedStep(bits: nat, h: nat, a: Byte, b: Byte, c: Byte)
    requires HashSize(bits) && Primed(bits, h, a, b)
    ensures UpdateHash(bits, h, c) == Hash3(bits, a, b, c)
    ensures Primed(bits, UpdateHash(bits, h, c), b, c)
  {
    hide UpdateHash;
    var g: nat :| h == UpdateHash(bits, UpdateHash(bits, g, a), b);
    OldByteGone(bits, g, a, b, c);
    assert UpdateHash(bits, h, c) == UpdateHash(bits, UpdateHash(bits, UpdateHash(bits, g, a), b), c);
  }
}
