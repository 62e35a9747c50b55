/** What the column counted by fold is: the effect of each control character,
    and the number of characters of a text without them. */
module FoldLaws {
  import opened Bits
  import opened Fold

  // A tab goes to the next multiple of eight.
  lemma TabStop(o: Options, column: nat)
    requires !o.countBytes
    ensures var r := AdjustColumn(o, column, 9);
            r % 8 == 0 && r > column && forall m: nat :: m % 8 == 0 && m > column ==> m >= r
  {
  }

  // A backspace goes back by one place, but not beyond the margin; a return goes
  // back to the margin. Counting bytes, nothing is special.
  lemma Controls(o: Options, column: nat, c: Byte)
    ensures !o.countBytes ==> AdjustColumn(o, column + 1, 8) == column && AdjustColumn(o, 0, 8) == 0
    ensures !o.countBytes ==> AdjustColumn(o, column, 13) == 0
    ensures o.countBytes ==> AdjustColumn(o, column, c) == column + 1
  {
  }

  lemma {:induction false} ByteColumns(o: Options, line: seq<Byte>, start: nat)
    requires o.countBytes || (!o.unicode && forall i :: 0 <= i < |line| ==> line[i] !in [8, 9, 13])
    ensures Column(o, line, start) == start + |line|
    decreases |line|
  {
    if line != [] {
      ByteColumns(o, line[..|line| - 1], start);
    }
  }

  // ---------- UTF-8 ----------

  // The bytes of a code point, as section 3 of RFC 3629 says.
  function Utf8(c: nat): (r: seq<Byte>)
    requires c < 0x11_0000
    ensures 1 <= |r| <= 4
  {
    if c < 0x80 then [c]
    else if c < 0x800 then [0xc0 + c / 0x40, 0x80 + c % 0x40]
    else if c < 0x1_0000 then [0xe0 + c / 0x1000, 0x80 + c / 0x40 % 0x40, 0x80 + c % 0x40]
    else [0xf0 + c / 0x4_0000, 0x80 + c / 0x1000 % 0x40, 0x80 + c / 0x40 % 0x40, 0x80 + c % 0x40]
  }

  predicate Printable(text: seq<nat>)
  {
    forall i :: 0 <= i < |text| ==> text[i] < 0x11_0000 && text[i] !in [8, 9, 13]
  }

  function Encoded(text: seq<nat>): seq<Byte>
    requires Printable(text)
  {
    if text == [] then [] else Encoded(text[..|text| - 1]) + Utf8(text[|text| - 1])
  }

  lemma Continues(o: Options, column: nat, b: nat)
    requires !o.countBytes && o.unicode && b < 0x40
    ensures AdjustColumn(o, column, 0x80 + b) == column
  {
  }

  lemma Leads(o: Options, column: nat, b: Byte)
    requires !o.countBytes && o.unicode && b !in [8, 9, 13] && (b < 0x80 || b >= 0xc0)
    ensures AdjustColumn(o, column, b) == column + 1
  {
  }

  lemma ColumnNext(o: Options, x: seq<Byte>, b: Byte, start: nat)
    ensures Column(o, x + [b], start) == AdjustColumn(o, Column(o, x, start), b)
  {
    assert (x + [b])[..|x|] == x;
  }

  // One character is one column, however many bytes it has.
  lemma OneColumn(o: Options, c: nat, start: nat)
    requires !o.countBytes && o.unicode && c < 0x11_0000 && c !in [8, 9, 13]
    ensures Column(o, Utf8(c), start) == start + 1
  {
    hide AdjustColumn, Column;
    var r := Utf8(c);
    Leads(o, start, r[0]);
    NoBytes(o, start);
    ColumnNext(o, [], r[0], start);
    assert [] + [r[0]] == [r[0]] == r[..1];
    if |r| > 1 {
      Continues(o, start + 1, r[1] - 0x80);
      ColumnNext(o, r[..1], r[1], start);
      assert r[..1] + [r[1]] == r[..2];
      if |r| > 2 {
        Continues(o, start + 1, r[2] - 0x80);
        ColumnNext(o, r[..2], r[2], start);
        assert r[..2] + [r[2]] == r[..3];
        if |r| > 3 {
          Continues(o, start + 1, r[3] - 0x80);
          ColumnNext(o, r[..3], r[3], start);
          assert r[..3] + [r[3]] == r[..4];
        }
      }
    }
    assert r[..|r|] == r;
  }

  lemma NoBytes(o: Options, start: nat)
    ensures Column(o, [], start) == start
  {
  }

  // The column of a text without control characters is its number of characters.
  lemma {:induction false} CharacterColumns(o: Options, text: seq<nat>, start: nat)
    requires !o.countBytes && o.unicode && Printable(text)
    ensures Column(o, Encoded(text), start) == start + |text|
    decreases |text|
  {
    hide Column, Utf8;
    if text == [] {
      NoBytes(o, start);
    } else {
      var n := |text| - 1;
      CharacterColumns(o, text[..n], start);
      OneColumn(o, text[n], start + n);
      ColumnConcat(o, Encoded(text[..n]), Utf8(text[n]), start);
    }
  }
}
