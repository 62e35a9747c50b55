/** What the check value is: the remainder of a division of polynomials over
    GF(2). The bits of a number are the coefficients of a polynomial, `Xor` adds
    two of them, and doubling multiplies by x. */
module CrcDivision {
  import opened Arith
  import opened Bits
  import opened Crc

  // ---------- polynomials ----------

  // The polynomial with the given exponents.
  function Polynomial(exponents: seq<nat>): nat
  {
    if exponents == [] then 0 else Pow2(exponents[0]) + Polynomial(exponents[1..])
  }

  // The generator of section 8 of RFC 1952 and ISO 3309:
  // x^32 + x^26 + x^23 + x^22 + x^16 + x^12 + x^11 + x^10 + x^8 + x^7 + x^5 + x^4 + x^2 + x + 1.
  function Generator(): nat
  {
    Polynomial([32, 26, 23, 22, 16, 12, 11, 10, 8, 7, 5, 4, 2, 1, 0])
  }

  // The product of two polynomials.
  function Product(a: nat, b: nat): nat
    decreases a
  {
    if a == 0 then 0 else Xor(2 * Product(a / 2, b), if a % 2 == 1 then b else 0)
  }

  // The polynomial times x^n.
  function TimesX(a: nat, n: nat): nat
  {
    a * Pow2(n)
  }

  // `p` divided by the generator leaves `r`.
  ghost predicate Leaves(p: nat, r: nat)
  {
    r < WORD && exists q: nat :: p == Xor(Product(q, Generator()), r)
  }

  // The remainder, by the schoolbook method: bring down one coefficient after the
  // other and take the generator away whenever it fits.
  function Remainder(p: nat): nat
    decreases p
  {
    if p == 0 then 0 else Reduced(2 * Remainder(p / 2) + p % 2)
  }

  function Reduced(r: nat): nat
  {
    if r < WORD then r else Xor(r, Generator())
  }

  // The lowest `n` bits in reverse.
  function Reflect(c: nat, n: nat): (r: nat)
    ensures r < Pow2(n)
    decreases n
  {
    if n == 0 then 0 else c % 2 * Pow2(n - 1) + Reflect(c / 2, n - 1)
  }

  // The polynomial of a message: the first bit has the highest power.
  function Message(data: seq<Byte>): nat
  {
    if data == [] then 0 else 256 * Message(data[..|data| - 1]) + Reflect(data[|data| - 1], 8)
  }

  // The message times x^32, with the register full of ones in front of it.
  function Dividend(data: seq<Byte>): nat
  {
    Xor(TimesX(ONES, 8 * |data|), TimesX(Message(data), 32))
  }

  // CRC-32: the remainder, reflected and complemented.
  function Crc32(data: seq<Byte>): nat
  {
    Xor(Reflect(Remainder(Dividend(data)), 32), ONES)
  }

  // ---------- exclusive or and doubling ----------

  lemma Double(a: nat, b: nat)
    ensures Xor(2 * a, 2 * b) == 2 * Xor(a, b)
  {
    hide Xor;
    XorStep(2 * a, 2 * b);
  }

  lemma {:induction false} ShiftUp(a: nat, b: nat, k: nat)
    ensures Xor(a * Pow2(k), b * Pow2(k)) == Xor(a, b) * Pow2(k)
    decreases k
  {
    hide Xor, Pow2;
    if k == 0 {
      Pow2Values();
    } else {
      var p := Pow2(k - 1);
      Pow2Next(k - 1);
      ShiftUp(a, b, k - 1);
      Double(a * p, b * p);
      TwiceOf(a, p);
      TwiceOf(b, p);
      TwiceOf(Xor(a, b), p);
    }
  }

  // Four summands, two by two.
  lemma XorMiddle(a: nat, b: nat, c: nat, d: nat)
    ensures Xor(Xor(a, b), Xor(c, d)) == Xor(Xor(a, c), Xor(b, d))
  {
    hide Xor;
    XorAssoc(a, b, Xor(c, d));
    XorAssoc(b, c, d);
    XorComm(b, c);
    XorAssoc(c, b, d);
    XorAssoc(a, c, Xor(b, d));
  }

  lemma {:induction false} ProductSum(q: nat, r: nat, g: nat)
    ensures Product(Xor(q, r), g) == Xor(Product(q, g), Product(r, g))
    decreases q + r
  {
    hide Xor;
    if q + r == 0 {
      XorZero(0);
    } else {
      XorStep(q, r);
      ProductSum(q / 2, r / 2, g);
      ProductStep(q, g);
      ProductStep(r, g);
      ProductStep(Xor(q, r), g);
      var x, y := if q % 2 == 1 then g else 0, if r % 2 == 1 then g else 0;
      XorMiddle(2 * Product(q / 2, g), x, 2 * Product(r / 2, g), y);
      Double(Product(q / 2, g), Product(r / 2, g));
      XorSelf(g, g);
      XorZero(g);
      XorZero(0);
    }
  }

  lemma ProductStep(a: nat, b: nat)
    ensures Product(a, b) == Xor(2 * Product(a / 2, b), if a % 2 == 1 then b else 0)
  {
  }

  // Multiplying the quotient by x and adding a coefficient.
  lemma ProductDouble(q: nat, odd: bool, g: nat)
    ensures Product(2 * q + (if odd then 1 else 0), g) == Xor(2 * Product(q, g), if odd then g else 0)
  {
    hide Xor;
    ProductStep(2 * q + (if odd then 1 else 0), g);
  }

  // ---------- the remainder is well defined ----------

  lemma LowPowers()
    ensures Polynomial([12, 11, 10, 8]) == 0x1d00 && Polynomial([7, 5, 4]) == 0xb0 && Polynomial([2, 1, 0]) == 7
  {
    Pow2Values();
    SumOf([12, 11, 10, 8]);
    SumOf([7, 5, 4]);
    SumOf([2, 1, 0]);
  }

  lemma HighPowers()
    ensures Polynomial([32, 26, 23, 22, 16]) == Pow2(32) + 0x04c1_0000
  {
    hide Pow2;
    Pow2Values();
    Pow2Add(16, 10);
    Pow2Add(16, 7);
    Pow2Add(16, 6);
    SumOf([32, 26, 23, 22, 16]);
  }

  lemma SumOf(e: seq<nat>)
    requires 3 <= |e| <= 5
    ensures Polynomial(e) == Pow2(e[0]) + Pow2(e[1]) + Pow2(e[2]) + (if |e| > 3 then Pow2(e[3]) else 0)
                             + (if |e| > 4 then Pow2(e[4]) else 0)
  {
    hide Pow2, Polynomial;
    assert e[1..][1..] == e[2..] && e[2..][1..] == e[3..];
    PolynomialStep(e);
    PolynomialStep(e[1..]);
    PolynomialStep(e[2..]);
    PolynomialStep(e[3..]);
    if |e| > 3 {
      assert e[3..][1..] == e[4..];
      PolynomialStep(e[4..]);
      if |e| > 4 {
        assert e[4..][1..] == e[5..];
        PolynomialStep(e[5..]);
      }
    }
  }

  lemma PolynomialStep(e: seq<nat>)
    ensures Polynomial(e) == if e == [] then 0 else Pow2(e[0]) + Polynomial(e[1..])
  {
  }

  lemma GeneratorIs()
    ensures Generator() == Pow2(32) + 0x04c1_1db7
  {
    hide Pow2, Polynomial;
    LowPowers();
    HighPowers();
    var a, b, c, d := [32, 26, 23, 22, 16], [12, 11, 10, 8], [7, 5, 4], [2, 1, 0];
    PolynomialOf(c, d);
    PolynomialOf(b, c + d);
    PolynomialOf(a, b + (c + d));
    assert a + (b + (c + d)) == [32, 26, 23, 22, 16, 12, 11, 10, 8, 7, 5, 4, 2, 1, 0];
  }

  lemma GeneratorSize()
    ensures Pow2(32) <= Generator() < Pow2(33) && Pow2(33) == 2 * Pow2(32) && Pow2(32) == WORD
  {
    hide Pow2, Generator;
    GeneratorIs();
    WordSize();
    Pow2Next(32);
  }

  lemma {:induction false} PolynomialOf(a: seq<nat>, b: seq<nat>)
    ensures Polynomial(a + b) == Polynomial(a) + Polynomial(b)
  {
    if a == [] {
      assert a + b == b;
    } else {
      assert (a + b)[1..] == a[1..] + b;
      PolynomialOf(a[1..], b);
    }
  }

  // A bit that is set in one of the numbers only stays.
  lemma XorAbove(a: nat, b: nat, k: nat)
    requires a >= Pow2(k) && b < Pow2(k)
    ensures Xor(a, b) >= Pow2(k)
  {
    hide Xor, Pow2;
    if Xor(a, b) < Pow2(k) {
      XorBelow(Xor(a, b), b, k);
      XorAssoc(a, b, b);
      XorSelf(b, b);
      XorZero(a);
    }
  }

  lemma {:induction false} ProductLarge(q: nat)
    requires q > 0
    ensures Product(q, Generator()) >= Pow2(32)
    decreases q
  {
    hide Xor, Pow2, Generator;
    var g := Generator();
    GeneratorSize();
    ProductStep(q, g);
    XorZero(g);
    XorZero(2 * Product(q / 2, g));
    if q > 1 {
      ProductLarge(q / 2);
      XorAbove(2 * Product(q / 2, g), g, 33);
    }
  }

  // There is one remainder only.
  lemma LeavesUnique(p: nat, r: nat, r': nat)
    requires Leaves(p, r) && Leaves(p, r')
    ensures r == r'
  {
    hide Xor, Pow2, Generator;
    var g := Generator();
    var q: nat :| p == Xor(Product(q, g), r);
    var q': nat :| p == Xor(Product(q', g), r');
    var x, y := Product(q, g), Product(q', g);
    XorMiddle(x, r, y, r');
    XorSelf(p, p);
    XorSelf(Xor(x, y), Xor(r, r'));
    ProductSum(q, q', g);
    WordSize();
    XorBelow(r, r', 32);
    if Xor(q, q') > 0 {
      ProductLarge(Xor(q, q'));
    }
    XorSelf(q, q');
    XorSelf(x, y);
    XorSelf(r, r');
  }

  // Both have the bit above the lowest `k`.
  lemma SameTop(a: nat, b: nat, k: nat)
    requires a < Pow2(k) && b < Pow2(k)
    ensures Xor(Pow2(k) + a, Pow2(k) + b) == Xor(a, b)
  {
    hide Xor, Pow2;
    XorPlace(a, 1, k);
    XorPlace(b, 1, k);
    XorMiddle(a, Pow2(k), b, Pow2(k));
    XorSelf(Pow2(k), Pow2(k));
    XorZero(Xor(a, b));
  }

  lemma {:induction false} RemainderLeaves(p: nat)
    ensures Leaves(p, Remainder(p))
    decreases p
  {
    hide Xor, Pow2, Generator, Product, Remainder, Reduced;
    var g := Generator();
    RemainderStep(p);
    if p == 0 {
      assert p == Xor(Product(0, g), 0) by { NoProduct(g); }
    } else {
      RemainderLeaves(p / 2);
      var q: nat :| p / 2 == Xor(Product(q, g), Remainder(p / 2));
      BringDown(p, q, Remainder(p / 2));
    }
  }

  lemma RemainderStep(p: nat)
    ensures Remainder(p) == if p == 0 then 0 else Reduced(2 * Remainder(p / 2) + p % 2)
  {
    hide Reduced;
  }

  lemma NoProduct(g: nat)
    ensures Product(0, g) == 0 && Xor(0, 0) == 0
  {
  }

  lemma BringDown(p: nat, q: nat, r0: nat)
    requires r0 < WORD && p / 2 == Xor(Product(q, Generator()), r0)
    ensures Leaves(p, Reduced(2 * r0 + p % 2))
  {
    hide Xor, Pow2, Generator, Product;
    var g, r := Generator(), 2 * r0 + p % 2;
    var x := 2 * Product(q, g);
    GeneratorSize();
    AddBit(Xor(Product(q, g), r0), p % 2);
    AddBit(r0, p % 2);
    Double(Product(q, g), r0);
    XorAssoc(x, 2 * r0, p % 2);
    assert p == Xor(x, r);
    ProductDouble(q, false, g);
    XorZero(x);
    if r < Pow2(32) {
      assert p == Xor(Product(2 * q, g), r);
    } else {
      ProductDouble(q, true, g);
      SameTop(r - Pow2(32), g - Pow2(32), 32);
      XorBelow(r - Pow2(32), g - Pow2(32), 32);
      XorMiddle(x, g, r, g);
      XorSelf(g, g);
      XorZero(Xor(x, r));
      assert p == Xor(Product(2 * q + 1, g), Xor(r, g));
    }
  }

  lemma AddBit(a: nat, bit: nat)
    requires bit <= 1
    ensures Xor(2 * a, bit) == 2 * a + bit
  {
    hide Xor;
    XorStep(2 * a, bit);
    XorZero(a);
  }

  // ---------- reflection ----------

  lemma {:induction false} ReflectXor(a: nat, b: nat, n: nat)
    ensures Reflect(Xor(a, b), n) == Xor(Reflect(a, n), Reflect(b, n))
    decreases n
  {
    hide Xor, Pow2, Reflect;
    if n == 0 {
      ReflectNone(a, b, Xor(a, b));
    } else {
      XorStep(a, b);
      ReflectXor(a / 2, b / 2, n - 1);
      ReflectStep(a, n);
      ReflectStep(b, n);
      ReflectStep(Xor(a, b), n);
      AddTop(Reflect(a / 2, n - 1), Reflect(b / 2, n - 1), a % 2, b % 2, n - 1);
    }
  }

  lemma ReflectNone(a: nat, b: nat, c: nat)
    ensures Reflect(c, 0) == Xor(Reflect(a, 0), Reflect(b, 0))
  {
  }

  lemma ReflectStep(c: nat, n: nat)
    requires n > 0
    ensures Reflect(c, n) == c % 2 * Pow2(n - 1) + Reflect(c / 2, n - 1)
  {
  }

  lemma AddTop(x: nat, y: nat, a: nat, b: nat, n: nat)
    requires x < Pow2(n) && y < Pow2(n) && a <= 1 && b <= 1
    ensures Xor(a * Pow2(n) + x, b * Pow2(n) + y) == (if a == b then 0 else 1) * Pow2(n) + Xor(x, y)
  {
    hide Xor, Pow2;
    var p, c := Pow2(n), if a == b then 0 else 1;
    XorPlace(x, a, n);
    XorPlace(y, b, n);
    XorMiddle(x, a * p, y, b * p);
    OneBit(a, b, p);
    XorBelow(x, y, n);
    XorPlace(Xor(x, y), c, n);
  }

  lemma OneBit(x: nat, y: nat, p: nat)
    requires x <= 1 && y <= 1
    ensures Xor(x * p, y * p) == (if x == y then 0 else 1) * p
  {
    hide Xor;
    XorSelf(x * p, y * p);
    XorZero(p);
  }

  lemma {:induction false} ReflectHigh(c: nat, n: nat)
    requires c < Pow2(n)
    ensures Reflect(c, n + 1) == 2 * Reflect(c, n)
    decreases n
  {
    if n > 0 {
      ReflectHigh(c / 2, n - 1);
      TwiceOf(c % 2, Pow2(n - 1));
    }
  }

  // A bit below the others goes above them.
  lemma {:induction false} ReflectTwice(c: nat, n: nat)
    requires c < Pow2(n)
    ensures Reflect(Reflect(c, n), n) == c
    decreases n
  {
    hide Xor;
    if n > 0 {
      var r := Reflect(c / 2, n - 1);
      ReflectTwice(c / 2, n - 1);
      ReflectPlace(r, c % 2, n - 1);
    }
  }

  lemma {:induction false} ReflectPlace(a: nat, bit: nat, n: nat)
    requires a < Pow2(n) && bit <= 1
    ensures Reflect(bit * Pow2(n) + a, n + 1) == 2 * Reflect(a, n) + bit
    decreases n
  {
    if n == 0 {
      assert Reflect(bit, 1) == bit * 1 + 0;
    } else {
      var c := bit * Pow2(n) + a;
      TwiceOf(bit, Pow2(n - 1));
      assert c % 2 == a % 2 && c / 2 == bit * Pow2(n - 1) + a / 2;
      ReflectPlace(a / 2, bit, n - 1);
      TwiceOf(a % 2, Pow2(n - 1));
    }
  }

  lemma {:induction false} ReflectOnes(n: nat)
    ensures Reflect(Pow2(n) - 1, n) == Pow2(n) - 1
    decreases n
  {
    if n > 0 {
      ReflectOnes(n - 1);
    }
  }

  // Without the lowest `n` bits.
  function Drop(c: nat, n: nat): nat
    decreases n
  {
    if n == 0 then c else Drop(c / 2, n - 1)
  }

  lemma DropByte(c: nat)
    ensures Drop(c, 8) == c / 256
  {
    assert Drop(c, 8) == Drop(c / 16, 4);
  }

  lemma {:induction false} ReflectSplit(c: nat, n: nat, m: nat)
    ensures Reflect(c, n + m) == TimesX(Reflect(c, n), m) + Reflect(Drop(c, n), m)
    decreases n
  {
    hide Pow2, Reflect;
    if n == 0 {
      Pow2Values();
      ReflectNone(c, c, c);
      XorZero(0);
    } else {
      ReflectSplit(c / 2, n - 1, m);
      ReflectStep(c, n + m);
      ReflectStep(c, n);
      Pow2Add(n - 1, m);
      Spread(c % 2, Pow2(n - 1), Pow2(m), Reflect(c / 2, n - 1));
    }
  }

  lemma Spread(a: nat, p: nat, q: nat, r: nat)
    ensures (a * p + r) * q == a * (p * q) + r * q
  {
  }

  lemma Reflect20()
    ensures Reflect(0x20, 8) == 0x04
  {
    hide Reflect, Pow2;
    Pow2Values();
    ReflectStep(0x20, 8);
    ReflectStep(0x10, 7);
    ReflectStep(0x08, 6);
    ReflectStep(0x04, 5);
    ReflectStep(0x02, 4);
    ReflectStep(0x01, 3);
    ReflectStep(0x00, 2);
    ReflectStep(0x00, 1);
    ReflectZero(0);
  }

  lemma Reflect83()
    ensures Reflect(0x83, 8) == 0xc1
  {
    hide Reflect, Pow2;
    Pow2Values();
    ReflectStep(0x83, 8);
    ReflectStep(0x41, 7);
    ReflectStep(0x20, 6);
    ReflectStep(0x10, 5);
    ReflectStep(0x08, 4);
    ReflectStep(0x04, 3);
    ReflectStep(0x02, 2);
    ReflectStep(0x01, 1);
    ReflectZero(0);
  }

  lemma ReflectB8()
    ensures Reflect(0xb8, 8) == 0x1d
  {
    hide Reflect, Pow2;
    Pow2Values();
    ReflectStep(0xb8, 8);
    ReflectStep(0x5c, 7);
    ReflectStep(0x2e, 6);
    ReflectStep(0x17, 5);
    ReflectStep(0x0b, 4);
    ReflectStep(0x05, 3);
    ReflectStep(0x02, 2);
    ReflectStep(0x01, 1);
    ReflectZero(0);
  }

  lemma ReflectED()
    ensures Reflect(0xed, 8) == 0xb7
  {
    hide Reflect, Pow2;
    Pow2Values();
    ReflectStep(0xed, 8);
    ReflectStep(0x76, 7);
    ReflectStep(0x3b, 6);
    ReflectStep(0x1d, 5);
    ReflectStep(0x0e, 4);
    ReflectStep(0x07, 3);
    ReflectStep(0x03, 2);
    ReflectStep(0x01, 1);
    ReflectZero(0);
  }

  lemma LowByteOf(c: nat)
    ensures Reflect(c, 8) == Reflect(c % 256, 8)
  {
    hide Reflect, Pow2;
    Pow2Values();
    ReflectLow(c % 256, c / 256, 8);
  }

  lemma {:induction false} ReflectLow(a: nat, b: nat, n: nat)
    ensures Reflect(a + b * Pow2(n), n) == Reflect(a, n)
    decreases n
  {
    if n > 0 {
      var p := Pow2(n - 1);
      TwiceOf(b, p);
      assert (a + b * Pow2(n)) % 2 == a % 2 && (a + b * Pow2(n)) / 2 == a / 2 + b * p;
      ReflectLow(a / 2, b, n - 1);
    }
  }

  // The constant in the program is the generator without x^32, reflected.
  lemma PolyIsGenerator()
    ensures Reflect(POLY, 32) == 0x04c1_1db7
  {
    hide Pow2, Reflect;
    Pow2Values();
    Pow2Add(16, 8);
    Reflect20();
    Reflect83();
    ReflectB8();
    ReflectED();
    ReflectSplit(POLY, 8, 24);
    ReflectSplit(0xed_b883, 8, 16);
    ReflectSplit(0xedb8, 8, 8);
    DropByte(POLY);
    DropByte(0xed_b883);
    DropByte(0xedb8);
    LowByteOf(POLY);
    LowByteOf(0xed_b883);
    LowByteOf(0xedb8);
  }

  // ---------- the register divides ----------

  // Moving on by one place multiplies by x, modulo the generator.
  lemma ShiftIsTimesX(c: nat)
    requires c < WORD
    ensures Shift(c) < WORD
    ensures 2 * Reflect(c, 32) == Xor(if c % 2 == 1 then Generator() else 0, Reflect(Shift(c), 32))
  {
    hide Xor, Pow2, Generator, Reflect;
    var h := Reflect(c / 2, 31);
    WordSize();
    ShiftBelow(c);
    Pow2Next(31);
    ReflectStep(c, 32);
    ReflectHigh(c / 2, 31);
    if c % 2 == 1 {
      ReflectXor(c / 2, POLY, 32);
      PolyIsGenerator();
      GeneratorIs();
      XorComm(2 * h, 0x04c1_1db7);
      var g := 0x04c1_1db7;
      XorAssoc(Pow2(32) + g, g, 2 * h);
      XorPlace(g, 1, 32);
      XorComm(g, Pow2(32));
      XorAssoc(Pow2(32), g, g);
      XorSelf(g, g);
      XorZero(Pow2(32));
      XorPlace(2 * h, 1, 32);
      XorComm(2 * h, Pow2(32));
    } else {
      XorZero(2 * h);
    }
  }

  // One bit enters: the dividend grows by it.
  lemma BitDivides(c: nat, bit: nat, p: nat)
    requires c < WORD && bit <= 1 && Leaves(p, Reflect(c, 32))
    ensures Shift(Xor(c, bit)) < WORD
    ensures Leaves(Xor(2 * p, bit * WORD), Reflect(Shift(Xor(c, bit)), 32))
  {
    hide Xor, Pow2, Generator, Reflect, Product, Shift;
    var g, x := Generator(), Xor(c, bit);
    WordSize();
    XorBelow(c, bit, 32);
    ShiftIsTimesX(x);
    var q: nat :| p == Xor(Product(q, g), Reflect(c, 32));
    var r, y, odd := Reflect(c, 32), 2 * Product(q, g), x % 2 == 1;
    ReflectXor(c, bit, 32);
    ReflectBit(bit);
    Pow2Next(31);
    Double(r, bit * Pow2(31));
    Double(Product(q, g), r);
    TwiceOf(bit, Pow2(31));
    XorAssoc(y, 2 * r, bit * WORD);
    var z := Reflect(Shift(x), 32);
    XorAssoc(y, if odd then g else 0, z);
    ProductDouble(q, odd, g);
    assert Xor(2 * p, bit * WORD) == Xor(Product(2 * q + (if odd then 1 else 0), g), z);
  }

  lemma ReflectBit(bit: nat)
    requires bit <= 1
    ensures Reflect(bit, 32) == bit * Pow2(31)
  {
    hide Pow2, Reflect;
    ReflectStep(bit, 32);
    ReflectZero(31);
  }

  lemma {:induction false} ReflectZero(n: nat)
    ensures Reflect(0, n) == 0
    decreases n
  {
    if n > 0 {
      ReflectZero(n - 1);
    }
  }

  lemma {:induction false} BitsDivide(c: nat, b: nat, n: nat, p: nat)
    requires c < WORD && Leaves(p, Reflect(c, 32))
    ensures BitsEnter(c, b, n) < WORD
    ensures Leaves(Xor(TimesX(p, n), Reflect(b, n) * WORD), Reflect(BitsEnter(c, b, n), 32))
    decreases n
  {
    hide Xor, Pow2, Generator, Reflect, Shift, Leaves;
    if n == 0 {
      Pow2Values();
      ReflectNone(b, b, b);
      XorZero(0);
      XorZero(p);
    } else {
      BitDivides(c, b % 2, p);
      var p1 := Xor(2 * p, b % 2 * WORD);
      BitsDivide(Shift(Xor(c, b % 2)), b / 2, n - 1, p1);
      NextBit(p, b, n);
    }
  }

  lemma NextBit(p: nat, b: nat, n: nat)
    requires n > 0
    ensures Xor(TimesX(Xor(2 * p, b % 2 * WORD), n - 1), Reflect(b / 2, n - 1) * WORD) ==
            Xor(TimesX(p, n), Reflect(b, n) * WORD)
  {
    hide Xor, Pow2, Reflect;
    var t, w, r, bit := Pow2(n - 1), WORD, Reflect(b / 2, n - 1), b % 2;
    WordSize();
    Pow2Next(n - 1);
    ReflectStep(b, n);
    ShiftUp(2 * p, bit * w, n - 1);
    TwiceOf(p, t);
    XorPlace(r, bit, n - 1);
    XorComm(r, bit * t);
    ShiftUp(bit * t, r, 32);
    Swap(bit, w, t);
    Swap(2, p, t);
    XorAssoc(p * (2 * t), bit * w * t, r * w);
  }

  lemma Swap(a: nat, b: nat, c: nat)
    ensures a * b * c == a * c * b
  {
  }

  // ---------- the check value ----------

  lemma {:induction false} RegisterDivides(data: seq<Byte>)
    ensures Register(ONES, data) < WORD && Leaves(Dividend(data), Reflect(Register(ONES, data), 32))
    decreases |data|
  {
    hide Xor, Pow2, Generator, Reflect, BitsEnter, Leaves, Dividend, TimesX;
    WordSize();
    if data == [] {
      ReflectOnes(32);
      AtTheStart();
    } else {
      var n := |data| - 1;
      RegisterDivides(data[..n]);
      BitsDivide(Register(ONES, data[..n]), data[n], 8, Dividend(data[..n]));
      NextByte(data);
    }
  }

  lemma AtTheStart()
    ensures Leaves(Dividend([]), ONES)
  {
    hide Xor, Pow2, Generator, Product;
    Pow2Values();
    XorZero(ONES);
    NoProduct(Generator());
    assert Dividend([]) == Xor(Product(0, Generator()), ONES);
  }

  lemma NextByte(data: seq<Byte>)
    requires data != []
    ensures var n := |data| - 1;
            Dividend(data) == Xor(TimesX(Dividend(data[..n]), 8), Reflect(data[n], 8) * WORD)
  {
    hide Xor, Pow2, Reflect, Message;
    var n := |data| - 1;
    var ones, m, r := ONES, Message(data[..n]), Reflect(data[n], 8);
    var x, w := Pow2(8 * n), WORD;
    WordSize();
    Pow2Values();
    Pow2Add(8 * n, 8);
    MessageNext(data);
    ShiftUp(ones * x, m * w, 8);
    XorPlace(r, m, 8);
    XorComm(r, m * 256);
    ShiftUp(m * 256, r, 32);
    Swap(m, w, 256);
    Assoc(ones, x, 256);
    XorAssoc(ones * x * 256, m * w * 256, r * w);
  }

  lemma MessageNext(data: seq<Byte>)
    requires data != []
    ensures Message(data) == 256 * Message(data[..|data| - 1]) + Reflect(data[|data| - 1], 8)
  {
  }

  lemma Assoc(a: nat, b: nat, c: nat)
    ensures a * b * c == a * (b * c)
  {
  }

  // The table-driven program computes CRC-32, for every text.
  lemma CheckIsCrc32(data: seq<Byte>)
    ensures Check(data) == Crc32(data)
  {
    hide Xor, Pow2, Reflect, Remainder, Dividend, Leaves, Register;
    var c := Register(ONES, data);
    WordSize();
    RegisterDivides(data);
    RemainderLeaves(Dividend(data));
    LeavesUnique(Dividend(data), Reflect(c, 32), Remainder(Dividend(data)));
    ReflectTwice(c, 32);
  }
}
