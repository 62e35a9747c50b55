/** crc32_filltable and crc32_block_endian0: the check value of a gzip member. */
module Crc {
  import opened Arith
  import opened Bits

  const POLY: nat := 0xedb8_8320
  const ONES: nat := 0xffff_ffff
  const WORD: nat := 0x1_0000_0000

  // ---------- the definition, bit by bit ----------

  // The shift register moves on by one place.
  function Shift(c: nat): nat
  {
    if c % 2 == 1 then Xor(c / 2, POLY) else c / 2
  }

  // The lowest `n` bits of `b` enter the register, least significant first.
  function BitsEnter(c: nat, b: nat, n: nat): nat
    decreases n
  {
    if n == 0 then c else BitsEnter(Shift(Xor(c, b % 2)), b / 2, n - 1)
  }

  // The register after all bits of `data`.
  function Register(c: nat, data: seq<Byte>): nat
  {
    if data == [] then c else BitsEnter(Register(c, data[..|data| - 1]), data[|data| - 1], 8)
  }

  // The check value of section 2.3.1 of RFC 1952: the register starts with ones
  // and is complemented at the end.
  function Check(data: seq<Byte>): nat
  {
    Xor(Register(ONES, data), ONES)
  }

  // ---------- exclusive or ----------

  lemma {:induction false} XorComm(a: nat, b: nat)
    ensures Xor(a, b) == Xor(b, a)
    decreases a + b
  {
    hide Xor;
    XorStep(a, b);
    XorStep(b, a);
    if a + b > 0 {
      XorComm(a / 2, b / 2);
    }
  }

  lemma {:induction false} XorAssoc(a: nat, b: nat, c: nat)
    ensures Xor(Xor(a, b), c) == Xor(a, Xor(b, c))
    decreases a + b + c
  {
    hide Xor;
    XorStep(a, b);
    XorStep(b, c);
    XorStep(Xor(a, b), c);
    XorStep(a, Xor(b, c));
    if a + b + c > 0 {
      XorAssoc(a / 2, b / 2, c / 2);
    } else {
      XorZero(0);
    }
  }

  lemma {:induction false} XorSelf(a: nat, b: nat)
    ensures Xor(a, b) == 0 <==> a == b
    decreases a + b
  {
    hide Xor;
    XorStep(a, b);
    if a + b > 0 {
      XorSelf(a / 2, b / 2);
    } else {
      XorZero(0);
    }
  }

  lemma {:induction false} XorBelow(a: nat, b: nat, k: nat)
    requires a < Pow2(k) && b < Pow2(k)
    ensures Xor(a, b) < Pow2(k)
    decreases k
  {
    hide Xor;
    XorStep(a, b);
    if k > 0 {
      XorBelow(a / 2, b / 2, k - 1);
    } else {
      XorZero(0);
    }
  }

  // Bits at different places do not meet.
  lemma {:induction false} XorPlace(a: nat, b: nat, k: nat)
    requires a < Pow2(k)
    ensures Xor(a, b * Pow2(k)) == a + b * Pow2(k)
    decreases k
  {
    hide Xor, Pow2;
    if k == 0 {
      Pow2Values();
      XorZero(b);
    } else {
      Pow2Next(k - 1);
      var p := Pow2(k - 1);
      TwiceOf(b, p);
      XorStep(a, b * (2 * p));
      XorPlace(a / 2, b, k - 1);
    }
  }

  lemma TwiceOf(b: nat, p: nat)
    ensures b * (2 * p) == 2 * (b * p)
  {
  }

  // ---------- the register is linear ----------

  lemma ShiftXor(x: nat, y: nat)
    ensures Shift(Xor(x, y)) == Xor(Shift(x), Shift(y))
  {
    hide Xor;
    XorStep(x, y);
    var a, b := x / 2, y / 2;
    XorComm(b, POLY);
    XorAssoc(a, b, POLY);
    XorAssoc(a, POLY, b);
    XorAssoc(a, POLY, Xor(POLY, b));
    XorAssoc(POLY, POLY, b);
    XorSelf(POLY, POLY);
    XorZero(b);
  }

  // Of the bits that wait, only the lowest acts on the register.
  lemma EnterOne(c: nat, x: nat)
    ensures Shift(Xor(c, x)) == Xor(Shift(Xor(c, x % 2)), x / 2)
  {
    hide Xor, Pow2, Shift;
    var high := 2 * (x / 2);
    assert Xor(x % 2, high) == x by {
      Pow2Values();
      XorPlace(x % 2, x / 2, 1);
    }
    XorAssoc(c, x % 2, high);
    ShiftXor(Xor(c, x % 2), high);
    EvenShift(x / 2);
  }

  function Shifts(c: nat, n: nat): nat
    decreases n
  {
    if n == 0 then c else Shifts(Shift(c), n - 1)
  }

  // The bits of a byte may as well enter all at once.
  lemma {:induction false} AtOnce(c: nat, b: nat, n: nat)
    requires b < Pow2(n)
    ensures BitsEnter(c, b, n) == Shifts(Xor(c, b), n)
    decreases n
  {
    hide Xor, Shift;
    if n == 0 {
      XorZero(c);
    } else {
      EnterOne(c, b);
      AtOnce(Shift(Xor(c, b % 2)), b / 2, n - 1);
    }
  }

  // In `n` steps the bits above the lowest `n` only move down.
  lemma {:induction false} HighBits(x: nat, y: nat, n: nat)
    ensures Shifts(Xor(x, y * Pow2(n)), n) == Xor(Shifts(x, n), y)
    decreases n
  {
    hide Xor, Shift, Pow2;
    if n == 0 {
      Pow2Values();
    } else {
      Pow2Next(n - 1);
      var z := y * Pow2(n - 1);
      TwiceOf(y, Pow2(n - 1));
      ShiftXor(x, 2 * z);
      EvenShift(z);
      HighBits(Shift(x), y, n - 1);
    }
  }

  lemma EvenShift(z: nat)
    ensures Shift(2 * z) == z
  {
  }

  // One step of crc32_block_endian0 with the table is eight steps of the register.
  lemma TableStep(c: nat, b: Byte)
    ensures Xor(Shifts(Xor(c % 256, b), 8), c / 256) == BitsEnter(c, b, 8)
  {
    hide Xor, Shifts, BitsEnter, Pow2;
    assert Pow2(8) == 256 by { Pow2Values(); }
    var low, high := c % 256, c / 256;
    XorPlace(low, high, 8);
    AtOnce(c, b, 8);
    XorAssoc(low, high * 256, b);
    XorComm(high * 256, b);
    XorAssoc(low, b, high * 256);
    HighBits(Xor(low, b), high, 8);
  }

  // ---------- the code ----------

  method FillTable() returns (table: seq<nat>)
    ensures |table| == 256 && forall i :: 0 <= i < 256 ==> table[i] == Shifts(i, 8)
  {
    hide Shift;
    table := [];
    var i := 0;
    while i < 256
      invariant 0 <= i <= 256 && |table| == i
      invariant forall k :: 0 <= k < i ==> table[k] == Shifts(k, 8)
    {
      var c := i;
      var j := 8;
      while j > 0
        invariant 0 <= j <= 8 && Shifts(c, j) == Shifts(i, 8)
      {
        c := Shift(c);
        j := j - 1;
      }
      table := table + [c];
      i := i + 1;
    }
  }

  // crc32_block_endian0
  method UpdCrc(crc: nat, buf: array<Byte>, off: nat, len: nat, table: seq<nat>) returns (val: nat)
    requires off + len <= buf.Length && |table| == 256 && forall i :: 0 <= i < 256 ==> table[i] == Shifts(i, 8)
    ensures val == Register(crc, buf[off..off + len])
  {
    hide Xor, Shifts, BitsEnter;
    val := crc;
    var i := 0;
    while i < len
      invariant 0 <= i <= len && val == Register(crc, buf[off..off + i])
    {
      var b := buf[off + i];
      ByteXor(val % 256, b);
      TableStep(val, b);
      assert buf[off..off + i + 1][..i] == buf[off..off + i] && buf[off..off + i + 1][i] == b;
      val := Xor(table[Xor(val % 256, b)], val / 256);
      i := i + 1;
    }
  }

  lemma ByteXor(a: nat, b: nat)
    requires a < 256 && b < 256
    ensures Xor(a, b) < 256
  {
    hide Xor, Pow2;
    Pow2Values();
    XorBelow(a, b, 8);
  }

  // ---------- what it is good for ----------

  lemma {:induction false} RegisterConcat(c: nat, a: seq<Byte>, b: seq<Byte>)
    ensures Register(c, a + b) == Register(Register(c, a), b)
    decreases |b|
  {
    hide BitsEnter;
    if b == [] {
      assert a + b == a;
    } else {
      var n := |b| - 1;
      RegisterConcat(c, a, b[..n]);
      assert (a + b)[..|a| + n] == a + b[..n] && (a + b)[|a| + n] == b[n];
    }
  }

  lemma WordSize()
    ensures Pow2(32) == WORD
  {
    hide Pow2;
    Pow2Values();
    Pow2Add(16, 16);
  }

  lemma ShiftBelow(c: nat)
    requires c < WORD
    ensures Shift(c) < WORD && (Shift(c) == 0 <==> c == 0)
  {
    hide Xor, Pow2;
    WordSize();
    XorBelow(c / 2, POLY, 32);
    XorSelf(c / 2, POLY);
  }

  // No two states of the register become equal.
  lemma {:induction false} ShiftsInjective(x: nat, y: nat, n: nat)
    requires x < WORD && y < WORD && x != y
    ensures Shifts(x, n) < WORD && Shifts(y, n) < WORD && Shifts(x, n) != Shifts(y, n)
    decreases n
  {
    hide Xor, Shift, Pow2;
    if n > 0 {
      WordSize();
      XorBelow(x, y, 32);
      XorSelf(x, y);
      ShiftXor(x, y);
      ShiftBelow(Xor(x, y));
      XorSelf(Shift(x), Shift(y));
      ShiftBelow(x);
      ShiftBelow(y);
      ShiftsInjective(Shift(x), Shift(y), n - 1);
    }
  }

  // Different states stay different over the same byte, and different bytes make
  // the same state different.
  lemma StepDiffers(x: nat, y: nat, a: Byte, b: Byte)
    requires x < WORD && y < WORD && ((x == y) != (a == b))
    ensures BitsEnter(x, a, 8) < WORD && BitsEnter(y, b, 8) < WORD && BitsEnter(x, a, 8) != BitsEnter(y, b, 8)
  {
    hide Xor, Shifts, BitsEnter, Pow2;
    WordSize();
    Pow2Values();
    AtOnce(x, a, 8);
    AtOnce(y, b, 8);
    XorBelow(x, a, 32);
    XorBelow(y, b, 32);
    XorDiffers(x, y, a, b);
    ShiftsInjective(Xor(x, a), Xor(y, b), 8);
  }

  lemma XorDiffers(x: nat, y: nat, a: nat, b: nat)
    requires (x == y) != (a == b)
    ensures Xor(x, a) != Xor(y, b)
  {
    hide Xor;
    if x == y {
      XorComm(x, a);
      XorComm(x, b);
      Cancel(a, b, x);
    } else {
      Cancel(x, y, a);
    }
  }

  lemma Cancel(x: nat, y: nat, a: nat)
    ensures Xor(x, a) == Xor(y, a) ==> x == y
  {
    hide Xor;
    XorAssoc(x, a, a);
    XorAssoc(y, a, a);
    XorSelf(a, a);
    XorZero(x);
    XorZero(y);
  }

  lemma {:induction false} RegisterBelow(data: seq<Byte>)
    ensures Register(ONES, data) < WORD
    decreases |data|
  {
    hide BitsEnter;
    if data != [] {
      var n := |data| - 1;
      RegisterBelow(data[..n]);
      EnterBelow(Register(ONES, data[..n]), data[n]);
    }
  }

  lemma EnterBelow(c: nat, b: Byte)
    requires c < WORD
    ensures BitsEnter(c, b, 8) < WORD
  {
    hide BitsEnter;
    StepDiffers(c, if c == 0 then 1 else 0, b, b);
  }

  lemma CheckBelow(data: seq<Byte>)
    ensures Check(data) < WORD
  {
    hide Xor, Pow2;
    RegisterBelow(data);
    WordSize();
    XorBelow(Register(ONES, data), ONES, 32);
  }

  // A change in one byte, whatever it is, changes the check value.
  lemma {:induction false} OneByteChanged(a: seq<Byte>, b: seq<Byte>, i: nat)
    requires |a| == |b| && i < |a| && a[i] != b[i] && forall j :: 0 <= j < |a| && j != i ==> a[j] == b[j]
    ensures Register(ONES, a) != Register(ONES, b) && Check(a) != Check(b)
    decreases |a|
  {
    hide BitsEnter, Xor;
    var n := |a| - 1;
    RegisterBelow(a[..n]);
    RegisterBelow(b[..n]);
    if i == n {
      assert a[..n] == b[..n];
    } else {
      OneByteChanged(a[..n], b[..n], i);
    }
    StepDiffers(Register(ONES, a[..n]), Register(ONES, b[..n]), a[n], b[n]);
    Cancel(Register(ONES, a), Register(ONES, b), ONES);
  }
}
