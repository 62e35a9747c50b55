/** The "bit string" routines of the compressor: a 16-bit accumulator in front
    of an output buffer that is written out whenever it fills up. */
module BitWriter {
  import opened Arith
  import opened Bits

  ghost function Zeros(n: nat): (r: seq<bool>)
    ensures |r| == n
  {
    seq(n, _ => false)
  }

  // Number of bits needed to reach the next byte boundary.
  function Padding(bits: nat): nat
  {
    (8 - bits % 8) % 8
  }

  lemma {:induction false} ToBitsZero(n: nat)
    ensures ToBits(0, n) == Zeros(n)
  {
    if n != 0 {
      ToBitsZero(n - 1);
    }
  }

  lemma {:induction false} ToBitsPad(v: nat, k: nat, m: nat)
    requires v < Pow2(k)
    ensures ToBits(v, k + m) == ToBits(v, k) + Zeros(m)
  {
    ToBitsPlace(v, k, 0, m);
    assert v + 0 * Pow2(k) == v;
    ToBitsZero(m);
  }

  lemma BytesBitsSnoc(s: seq<Byte>, b: Byte)
    ensures BytesBits(s + [b]) == BytesBits(s) + ToBits(b, 8)
  {
    assert (s + [b])[..|s + [b]| - 1] == s;
  }

  lemma BytesBits16(s: seq<Byte>, w: nat)
    requires w < 0x1_0000
    ensures w % 256 < 256 && w / 256 < 256
    ensures BytesBits(s + [w % 256] + [w / 256]) == BytesBits(s) + ToBits(w, 16)
  {
    var lo, hi := w % 256, w / 256;
    BytesBitsSnoc(s, lo);
    BytesBitsSnoc(s + [lo], hi);
    Pow2Values();
    ToBitsPlace(lo, 8, hi, 8);
    ConcatAssoc(BytesBits(s), ToBits(lo, 8), ToBits(hi, 8));
  }

  // A 32-bit value as four bytes, least significant first.
  function Le32(n: nat): (r: seq<Byte>)
    requires n < 0x1_0000_0000
    ensures |r| == 4
  {
    [n % 256, n / 256 % 256, n / 0x1_0000 % 256, n / 0x100_0000]
  }

  lemma FourBytes(n: nat, a: nat, b: nat, c: nat, d: nat)
    requires n == a + 256 * b + 0x1_0000 * c + 0x100_0000 * d && a < 256 && b < 256 && c < 256
    ensures n % 256 == a && n / 256 % 256 == b && n / 0x1_0000 % 256 == c && n / 0x100_0000 == d
  {
    ModUnique(n, 256, b + 256 * c + 0x1_0000 * d, a);
    ModUnique(n / 256, 256, c + 256 * d, b);
    ModUnique(n, 0x1_0000, c + 256 * d, a + 256 * b);
    ModUnique(n / 0x1_0000, 256, d, c);
    ModUnique(n, 0x100_0000, d, a + 256 * b + 0x1_0000 * c);
  }

  lemma Le32Words(n: nat, lo: nat, hi: nat, b: seq<Byte>)
    requires n < 0x1_0000_0000 && lo == U16(n) && hi == U16(n / 0x1_0000)
    ensures lo / 256 < 256 && hi / 256 < 256
    ensures b + [lo % 256] + [lo / 256] + [hi % 256] + [hi / 256] == b + Le32(n)
  {
    assert n == hi * 0x1_0000 + lo;
    FourBytes(n, lo % 256, lo / 256, hi % 256, hi / 256);
    Snoc4(b, lo % 256, lo / 256, hi % 256, hi / 256);
  }

  lemma Snoc4<T>(b: seq<T>, w: T, x: T, y: T, z: T)
    ensures b + [w] + [x] + [y] + [z] == b + [w, x, y, z]
  {
  }

  class Writer {
    const outbuf: array<Byte>
    var outcnt: nat
    var written: seq<Byte>   // what xwrite has sent to the output file
    var biBuf: nat
    var biValid: nat

    ghost predicate Valid()
      reads this, outbuf
    {
      && outbuf.Length >= 3
      && outcnt < outbuf.Length
      && biValid <= 16
      && biBuf < Pow2(biValid)
    }

    // All bytes produced so far, whether already written out or still buffered.
    ghost function Bytes(): seq<Byte>
      requires outcnt <= outbuf.Length
      reads this, outbuf
    {
      written + outbuf[..outcnt]
    }

    // All bits sent so far.
    ghost function Sent(): seq<bool>
      requires Valid()
      reads this, outbuf
    {
      BytesBits(Bytes()) + ToBits(biBuf, biValid)
    }

    constructor (bufferSize: nat)
      requires bufferSize >= 3
      ensures Valid() && biValid == 0 && Bytes() == [] && fresh(outbuf)
    {
      outbuf := new Byte[bufferSize];
      outcnt, written, biBuf, biValid := 0, [], 0, 0;
    }

    method FlushOutbuf()
      requires outcnt <= outbuf.Length
      modifies this`outcnt, this`written
      ensures outcnt == 0
      ensures Bytes() == written == old(Bytes())
    {
      if outcnt == 0 {
        return;
      }
      written := written + outbuf[..outcnt];
      outcnt := 0;
    }

    method Put8(c: Byte)
      requires outcnt < outbuf.Length
      modifies this`outcnt, this`written, outbuf
      ensures outcnt < outbuf.Length
      ensures Bytes() == old(Bytes()) + [c]
    {
      outbuf[outcnt] := c;
      outcnt := outcnt + 1;
      assert Bytes() == old(Bytes()) + [c];
      if outcnt == outbuf.Length {
        FlushOutbuf();
      }
    }

    method Put16(w: nat)
      requires w < 0x1_0000
      requires outcnt < outbuf.Length
      modifies this`outcnt, this`written, outbuf
      ensures outcnt < outbuf.Length
      ensures Bytes() == old(Bytes()) + [w % 256] + [w / 256]
      ensures BytesBits(Bytes()) == old(BytesBits(Bytes())) + ToBits(w, 16)
    {
      hide ToBits, BytesBits;
      BytesBits16(Bytes(), w);
      if outcnt < outbuf.Length - 2 {
        outbuf[outcnt] := w % 256;
        outcnt := outcnt + 1;
        outbuf[outcnt] := w / 256;
        outcnt := outcnt + 1;
        assert Bytes() == old(Bytes()) + [w % 256] + [w / 256];
      } else {
        Put8(w % 256);
        Put8(w / 256);
      }
    }

    method Put32(n: nat)
      requires n < 0x1_0000_0000 && outcnt < outbuf.Length
      modifies this`outcnt, this`written, outbuf
      ensures outcnt < outbuf.Length
      ensures Bytes() == old(Bytes()) + Le32(n)
    {
      hide BytesBits, ToBits;
      hide Le32, U16;
      ghost var b0 := Bytes();
      Le32Words(n, U16(n), U16(n / 0x1_0000), b0);
      Put16(U16(n));
      Put16(U16(n / 0x1_0000));
    }

    // Append the `length` bits of `value` to the stream, least significant first.
    method SendBits(value: nat, length: nat)
      requires Valid()
      requires length <= 16 && value < Pow2(length)
      modifies this, outbuf
      ensures Valid()
      ensures Sent() == old(Sent()) + ToBits(value, length)
    {
      hide ToBits, BytesBits, Or, Pow2;
      ghost var done := BytesBits(Bytes());
      ghost var pending := ToBits(biBuf, biValid);
      if biValid > 16 - length {
        assert U16(value) == value by { Pow2Values(); Pow2Mono(length, 16); }
        ghost var low, carry := value % Pow2(16 - biValid), value / Pow2(16 - biValid);
        SpillWord(biBuf, biValid, value, low, carry);
        SpillBits(biBuf, biValid, value, length, low, carry);
        var word := U16(Or(biBuf, value * Pow2(biValid)));
        Put16(word);
        biBuf := U16(value) / Pow2(16 - biValid);
        biValid := biValid + length - 16;
        ConcatAssoc(done, ToBits(word, 16), ToBits(biBuf, biValid));
      } else {
        FitsInWord(biBuf, biValid, value, length);
        biBuf := U16(Or(biBuf, value * Pow2(biValid)));
        biValid := biValid + length;
      }
      ConcatAssoc(done, pending, ToBits(value, length));
    }

    // Pads with zero bits up to the next byte boundary.
    method BiWindup()
      requires Valid()
      modifies this, outbuf
      ensures Valid() && biValid == 0 && biBuf == 0
      ensures Sent() == old(Sent()) + Zeros(Padding(|old(Sent())|))
      ensures Sent() == BytesBits(Bytes())
    {
      hide ToBits, BytesBits, Zeros, Pow2, Padding;
      WindupBits(BytesBits(Bytes()), biBuf, biValid);
      if biValid > 8 {
        Put16(biBuf);
      } else if biValid > 0 {
        BytesBitsSnoc(Bytes(), biBuf);
        Put8(biBuf);
      }
      biBuf := 0;
      biValid := 0;
    }

    // A stored block's data: aligned, optionally preceded by LEN and NLEN.
    method CopyBlock(buf: array<Byte>, start: nat, len: nat, header: bool)
      requires Valid() && buf != outbuf
      requires start + len <= buf.Length
      modifies this, outbuf
      ensures Valid()
      ensures Sent() == old(Sent()) + Zeros(Padding(|old(Sent())|))
                        + (if header then ToBits(U16(len), 16) + ToBits(0xffff - U16(len), 16) else [])
                        + BytesBits(buf[start..start + len])
    {
      hide ToBits, BytesBits, Pow2, Padding, Zeros;
      BiWindup();
      ghost var aligned := Sent();
      ghost var words := [];
      if header {
        words := ToBits(U16(len), 16) + ToBits(0xffff - U16(len), 16);
        Put16(U16(len));
        Put16(0xffff - U16(len));
        ConcatAssoc(aligned, ToBits(U16(len), 16), ToBits(0xffff - U16(len), 16));
      }
      ghost var before := Bytes();
      PutBytes(buf, start, len);
      BytesBitsConcat(before, buf[start..start + len]);
    }

    method PutBytes(buf: array<Byte>, start: nat, len: nat)
      requires outcnt < outbuf.Length && buf != outbuf && start + len <= buf.Length
      modifies this`outcnt, this`written, outbuf
      ensures outcnt < outbuf.Length && Bytes() == old(Bytes()) + buf[start..start + len]
    {
      ghost var before := Bytes();
      var i := 0;
      while i < len
        invariant i <= len && outcnt < outbuf.Length
        invariant Bytes() == before + buf[start..start + i]
      {
        Put8(buf[start + i]);
        assert buf[start..start + i] + [buf[start + i]] == buf[start..start + i + 1];
        i := i + 1;
      }
    }
  }

  lemma PaddingIs(bits: nat, v: nat)
    requires bits % 8 == 0 && v <= 16
    ensures Padding(bits + v) == if v > 8 then 16 - v else if v > 0 then 8 - v else 0
  {
  }

  // The pending bits are padded to one or two bytes.
  lemma WindupBits(done: seq<bool>, buf: nat, v: nat)
    requires |done| % 8 == 0 && v <= 16 && buf < Pow2(v)
    ensures buf < 0x1_0000 && (v <= 8 ==> buf < 256)
    ensures done + ToBits(buf, v) + Zeros(Padding(|done + ToBits(buf, v)|)) ==
            done + if v > 8 then ToBits(buf, 16) else if v > 0 then ToBits(buf, 8) else []
  {
    hide ToBits, Zeros, Pow2, Padding;
    WordFits(buf, v);
    PaddingIs(|done|, v);
    ConcatAssoc(done, ToBits(buf, v), Zeros(Padding(|done| + v)));
    if v > 8 {
      ToBitsPad(buf, v, 16 - v);
    } else if v > 0 {
      ToBitsPad(buf, v, 8 - v);
    }
  }

  lemma WordFits(v: nat, n: nat)
    requires v < Pow2(n) && n <= 16
    ensures v < 0x1_0000 && (n <= 8 ==> v < 256)
  {
    Pow2Values();
    Pow2Mono(n, 16);
    if n <= 8 {
      Pow2Mono(n, 8);
    }
  }

  lemma CarryBound(value: nat, length: nat, room: nat, carry: nat)
    requires value < Pow2(length) && room <= length
    requires carry * Pow2(room) <= value
    ensures carry < Pow2(length - room)
  {
    Pow2Add(length - room, room);
    if carry >= Pow2(length - room) {
      MulMono(Pow2(length - room), carry, Pow2(room));
    }
  }

  lemma PlaceBound(a: nat, k: nat, b: nat, m: nat)
    requires a < Pow2(k) && b < Pow2(m)
    ensures a + b * Pow2(k) < Pow2(k + m)
  {
    Pow2Add(m, k);
    MulMono(b + 1, Pow2(m), Pow2(k));
    assert (b + 1) * Pow2(k) == b * Pow2(k) + Pow2(k);
  }

  lemma FitsInWord(buf: nat, v: nat, value: nat, length: nat)
    requires v + length <= 16 && buf < Pow2(v) && value < Pow2(length)
    ensures var word := U16(Or(buf, value * Pow2(v)));
            word < Pow2(v + length) && ToBits(word, v + length) == ToBits(buf, v) + ToBits(value, length)
  {
    hide ToBits, Or;
    OrPlace(buf, value, v);
    PlaceBound(buf, v, value, length);
    Pow2Values();
    Pow2Mono(v + length, 16);
    ToBitsPlace(buf, v, value, length);
  }

  // When `value` does not fit behind `buf`, a full word goes out and the high
  // bits of `value`, here `carry`, stay behind.
  lemma SpillBits(buf: nat, v: nat, value: nat, length: nat, low: nat, carry: nat)
    requires v <= 16 && length <= 16 && v + length > 16
    requires buf < Pow2(v) && value < Pow2(length)
    requires value == low + carry * Pow2(16 - v) && low < Pow2(16 - v)
    ensures carry < Pow2(v + length - 16)
    ensures ToBits(buf + low * Pow2(v), 16) + ToBits(carry, v + length - 16) == ToBits(buf, v) + ToBits(value, length)
  {
    hide ToBits, Pow2;
    var room := 16 - v;
    CarryBound(value, length, room, carry);
    ToBitsPlace(buf, v, low, room);
    ToBitsPlace(low, room, carry, length - room);
    ConcatAssoc(ToBits(buf, v), ToBits(low, room), ToBits(carry, length - room));
  }

  lemma SpillWord(buf: nat, v: nat, value: nat, low: nat, carry: nat)
    requires v <= 16 && buf < Pow2(v)
    requires value == low + carry * Pow2(16 - v) && low < Pow2(16 - v)
    ensures U16(Or(buf, value * Pow2(v))) == buf + low * Pow2(v)
  {
    hide Or, Pow2;
    OrPlace(buf, value, v);
    PlaceBound(buf, v, low, 16 - v);
    SpillMod(buf, value, low, carry, v);
  }

  lemma SpillMod(buf: nat, value: nat, low: nat, carry: nat, v: nat)
    requires v <= 16 && value == low + carry * Pow2(16 - v) && buf + low * Pow2(v) < Pow2(16)
    ensures U16(buf + value * Pow2(v)) == buf + low * Pow2(v)
  {
    hide Pow2;
    var p, q := Pow2(v), Pow2(16 - v);
    assert q * p == 0x1_0000 by { Pow2Add(16 - v, v); Pow2Values(); }
    DropHigh(buf, value, low, carry, p, q);
    assert Pow2(16) == 0x1_0000 by { Pow2Values(); }
    ModUnique(buf + value * p, 0x1_0000, carry, buf + low * p);
  }

  lemma DropHigh(buf: nat, value: nat, low: nat, carry: nat, p: nat, q: nat)
    requires value == low + carry * q
    ensures buf + value * p == carry * (q * p) + (buf + low * p)
  {
  }
}
