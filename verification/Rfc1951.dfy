/** A functional reading of RFC 1951: what a compliant decompressor makes of a
    bit stream. Every function takes the stream `s` and a position `p` in it.
    Nothing here mentions the compressor. */
module Rfc1951 {
  import opened Arith
  import opened Bits

  datatype Option<+T> = None | Some(value: T) {
    predicate IsFailure() { None? }
    function PropagateFailure<U>(): Option<U>
      requires None?
    {
      None
    }
    function Extract(): T
      requires Some?
    {
      value
    }
  }

  // Section 3.1.1: data elements other than Huffman codes are packed starting
  // with the least significant bit.
  function ReadBits(s: seq<bool>, p: nat, n: nat): (r: Option<nat>)
    ensures r.Some? <==> p + n <= |s|
    ensures r.Some? ==> r.value < Pow2(n)
  {
    if p + n <= |s| then Some(FromBits(s[p..p + n])) else None
  }

  // ---------- section 3.2.2: canonical Huffman codes ----------

  const MAX_BITS: nat := 15

  // bl_count[b]
  function Count(lens: seq<nat>, b: nat): nat
  {
    if lens == [] then 0
    else Count(lens[..|lens| - 1], b) + if lens[|lens| - 1] == b then 1 else 0
  }

  // next_code[b] before any code is assigned; bl_count[0] is taken as zero
  function FirstCode(lens: seq<nat>, b: nat): nat
  {
    if b <= 1 then 0 else 2 * (FirstCode(lens, b - 1) + Count(lens, b - 1))
  }

  // Codes of one length are consecutive, in symbol order.
  function CodeValue(lens: seq<nat>, n: nat): nat
    requires n < |lens|
  {
    FirstCode(lens, lens[n]) + Count(lens[..n], lens[n])
  }

  function CodeBits(lens: seq<nat>, n: nat): (r: seq<bool>)
    requires n < |lens|
    ensures |r| == lens[n]
  {
    MsbBits(CodeValue(lens, n), lens[n])
  }

  // Sum of 2^(top - len) over the symbols that have a code.
  function Kraft(lens: seq<nat>, top: nat): nat
  {
    if lens == [] then 0
    else
      var l := lens[|lens| - 1];
      Kraft(lens[..|lens| - 1], top) + if 0 < l <= top then Pow2(top - l) else 0
  }

  // The lengths describe a prefix code: none is too long and the code space is
  // not oversubscribed.
  predicate ValidLengths(lens: seq<nat>)
  {
    (forall i :: 0 <= i < |lens| ==> lens[i] <= MAX_BITS) && Kraft(lens, MAX_BITS) <= Pow2(MAX_BITS)
  }

  // The first symbol not below `n` whose code stands at `p`.
  function DecodeFrom(lens: seq<nat>, s: seq<bool>, p: nat, n: nat): (r: Option<nat>)
    requires n <= |lens|
    ensures r.Some? ==> r.value < |lens| && lens[r.value] > 0 && At(s, p, CodeBits(lens, r.value))
    decreases |lens| - n
  {
    if n == |lens| then None
    else if lens[n] > 0 && At(s, p, CodeBits(lens, n)) then Some(n)
    else DecodeFrom(lens, s, p, n + 1)
  }

  function DecodeSymbol(lens: seq<nat>, s: seq<bool>, p: nat): (r: Option<nat>)
    ensures r.Some? ==> r.value < |lens| && lens[r.value] > 0 && p + lens[r.value] <= |s|
  {
    DecodeFrom(lens, s, p, 0)
  }

  // ---------- section 3.2.5: compressed blocks ----------

  // Length codes 257..285 and distance codes 0..29.
  const LENGTH_BASE: seq<nat> :=
    [3, 4, 5, 6, 7, 8, 9, 10, 11, 13, 15, 17, 19, 23, 27, 31, 35, 43, 51, 59, 67, 83, 99, 115, 131, 163, 195, 227, 258]
  const LENGTH_EXTRA: seq<nat> :=
    [0, 0, 0, 0, 0, 0, 0, 0, 1, 1, 1, 1, 2, 2, 2, 2, 3, 3, 3, 3, 4, 4, 4, 4, 5, 5, 5, 5, 0]
  const DIST_BASE: seq<nat> :=
    [1, 2, 3, 4, 5, 7, 9, 13, 17, 25, 33, 49, 65, 97, 129, 193, 257, 385, 513, 769, 1025, 1537, 2049, 3073,
     4097, 6145, 8193, 12289, 16385, 24577]
  const DIST_EXTRA: seq<nat> :=
    [0, 0, 0, 0, 1, 1, 2, 2, 3, 3, 4, 4, 5, 5, 6, 6, 7, 7, 8, 8, 9, 9, 10, 10, 11, 11, 12, 12, 13, 13]

  function LengthBase(c: nat): (r: nat)
    requires c < 29
  {
    LENGTH_BASE[c]
  }

  function LengthExtra(c: nat): nat
    requires c < 29
  {
    LENGTH_EXTRA[c]
  }

  function DistBase(c: nat): (r: nat)
    requires c < 30
    ensures r >= 1
  {
    DIST_BASE[c]
  }

  function DistExtra(c: nat): nat
    requires c < 30
  {
    DIST_EXTRA[c]
  }

  const END_BLOCK: nat := 256

  // `length` bytes starting `dist` back from the end; the copy may overlap
  // what it produces.
  function Copy(out: seq<Byte>, dist: nat, length: nat): (r: seq<Byte>)
    requires 1 <= dist <= |out|
    ensures |r| == |out| + length
    decreases length
  {
    if length == 0 then out else Copy(out + [out[|out| - dist]], dist, length - 1)
  }

  function Append(out: seq<Byte>, b: Byte): seq<Byte>
  {
    out + [b]
  }

  // The rest of a match after the length symbol `sym`: length, distance and
  // the position behind it.
  function ReadMatch(sym: nat, dist: seq<nat>, s: seq<bool>, p: nat): (r: Option<(nat, nat, nat)>)
    requires sym >= 257
    ensures r.Some? ==> r.value.1 >= 1 && p <= r.value.2 <= |s|
  {
    if sym - 257 >= 29 then None
    else
      var lx := LengthExtra(sym - 257);
      var lextra :- ReadBits(s, p, lx);
      var dsym :- DecodeSymbol(dist, s, p + lx);
      if dsym >= 30 then None
      else
        var p1 := p + lx + dist[dsym];
        var dextra :- ReadBits(s, p1, DistExtra(dsym));
        Some((LengthBase(sym - 257) + lextra, DistBase(dsym) + dextra, p1 + DistExtra(dsym)))
  }

  // Returns the output so far and the position after the end-of-block code.
  function InflateData(lit: seq<nat>, dist: seq<nat>, s: seq<bool>, p: nat, out: seq<Byte>): (r: Option<(seq<Byte>, nat)>)
    ensures r.Some? ==> p <= r.value.1 <= |s|
    decreases |s| - p
  {
    var sym :- DecodeSymbol(lit, s, p);
    var p1 := p + lit[sym];
    if sym < 256 then
      InflateData(lit, dist, s, p1, Append(out, sym))
    else if sym == END_BLOCK then
      Some((out, p1))
    else
      var (length, d, q) :- ReadMatch(sym, dist, s, p1);
      if d > |out| then None else InflateData(lit, dist, s, q, Copy(out, d, length))
  }

  // ---------- section 3.2.4: stored blocks ----------

  function ReadBytes(s: seq<bool>, p: nat, n: nat, out: seq<Byte>): (r: Option<(seq<Byte>, nat)>)
    ensures r.Some? ==> p <= r.value.1 <= |s|
    decreases n
  {
    if n == 0 then
      if p <= |s| then Some((out, p)) else None
    else
      var b :- ReadBits(s, p, 8);
      ByteRange(b);
      ReadBytes(s, p + 8, n - 1, Append(out, b))
  }

  lemma ByteRange(b: nat)
    requires b < Pow2(8)
    ensures b < 256
  {
    Pow2Values();
  }

  function InflateStored(s: seq<bool>, p: nat, out: seq<Byte>): (r: Option<(seq<Byte>, nat)>)
    ensures r.Some? ==> p <= r.value.1 <= |s|
  {
    var q := (p + 7) / 8 * 8;
    var len :- ReadBits(s, q, 16);
    var nlen :- ReadBits(s, q + 16, 16);
    if len + nlen != 0xffff then None else ReadBytes(s, q + 32, len, out)
  }

  function Repeat(v: nat, n: nat): (r: seq<nat>)
    ensures |r| == n && forall i :: 0 <= i < n ==> r[i] == v
  {
    seq(n, i => v)
  }

  // ---------- section 3.2.6: fixed Huffman codes ----------

  function FixedLit(): (r: seq<nat>)
    ensures |r| == 288
    ensures forall i :: 0 <= i < 144 ==> r[i] == 8
    ensures forall i :: 144 <= i < 256 ==> r[i] == 9
    ensures forall i :: 256 <= i < 280 ==> r[i] == 7
    ensures forall i :: 280 <= i < 288 ==> r[i] == 8
  {
    Repeat(8, 144) + Repeat(9, 112) + Repeat(7, 24) + Repeat(8, 8)
  }

  function FixedDist(): seq<nat>
  {
    Repeat(5, 32)
  }

  // ---------- section 3.2.7: dynamic Huffman codes ----------

  const CL_ORDER: seq<nat> := [16, 17, 18, 0, 8, 7, 9, 6, 10, 5, 11, 4, 12, 3, 13, 2, 14, 1, 15]

  // The lengths of the code length code, `k` of them still to be read.
  function ReadClLengths(s: seq<bool>, p: nat, i: nat, k: nat, cl: seq<nat>): (r: Option<seq<nat>>)
    requires i + k <= 19 && |cl| == 19
    ensures r.Some? ==> p + 3 * k <= |s| || k == 0
    decreases k
  {
    if k == 0 then Some(cl)
    else
      var v :- ReadBits(s, p, 3);
      ReadClLengths(s, p + 3, i + 1, k - 1, cl[CL_ORDER[i] := v])
  }

  // Extra bits that follow a symbol of the code length alphabet.
  function ClExtra(sym: nat): nat
  {
    if sym == 16 then 2 else if sym == 17 then 3 else if sym == 18 then 7 else 0
  }

  // What one symbol of the code length alphabet adds to the lengths so far.
  function ClApply(acc: seq<nat>, sym: nat, extra: nat): (r: Option<seq<nat>>)
    ensures r.Some? ==> |r.value| > |acc|
  {
    if sym < 16 then Some(acc + [sym])
    else if sym == 16 then
      if acc == [] then None else Some(acc + Repeat(acc[|acc| - 1], 3 + extra))
    else if sym == 17 then Some(acc + Repeat(0, 3 + extra))
    else Some(acc + Repeat(0, 11 + extra))
  }

  // Code lengths until `n` of them are known.
  function ReadLengths(cl: seq<nat>, s: seq<bool>, p: nat, n: nat, acc: seq<nat>): (r: Option<(seq<nat>, nat)>)
    requires p <= |s|
    ensures r.Some? ==> |r.value.0| == n && p <= r.value.1 <= |s|
    decreases |s| - p
  {
    if |acc| == n then Some((acc, p))
    else if |acc| > n then None
    else
      var sym :- DecodeSymbol(cl, s, p);
      var p1 := p + cl[sym];
      var extra :- ReadBits(s, p1, ClExtra(sym));
      var acc' :- ClApply(acc, sym, extra);
      ReadLengths(cl, s, p1 + ClExtra(sym), n, acc')
  }

  function SplitLengths(all: seq<nat>, nlit: nat, q: nat): (r: Option<(seq<nat>, seq<nat>, nat)>)
    requires nlit <= |all|
    ensures r.Some? ==> r.value == (all[..nlit], all[nlit..], q)
    ensures r.Some? <==> ValidLengths(all[..nlit]) && ValidLengths(all[nlit..])
  {
    if ValidLengths(all[..nlit]) && ValidLengths(all[nlit..]) then Some((all[..nlit], all[nlit..], q)) else None
  }

  // The literal/length and distance code lengths, sent as one sequence.
  function ReadCodes(cl: seq<nat>, s: seq<bool>, p: nat, nlit: nat, ndist: nat): (r: Option<(seq<nat>, seq<nat>, nat)>)
    requires p <= |s|
    ensures r.Some? ==> p <= r.value.2 <= |s|
  {
    if !ValidLengths(cl) then None
    else
      var (all, q) :- ReadLengths(cl, s, p, nlit + ndist, []);
      SplitLengths(all, nlit, q)
  }

  // HLIT, HDIST, HCLEN and the two code descriptions.
  function ReadTrees(s: seq<bool>, p: nat): (r: Option<(seq<nat>, seq<nat>, nat)>)
    ensures r.Some? ==> p <= r.value.2 <= |s|
  {
    var hlit :- ReadBits(s, p, 5);
    var hdist :- ReadBits(s, p + 5, 5);
    var hclen :- ReadBits(s, p + 10, 4);
    var ncl := hclen + 4;
    if hlit + 257 > 286 || ncl > 19 then None
    else
      var cl :- ReadClLengths(s, p + 14, 0, ncl, Repeat(0, 19));
      ReadCodes(cl, s, p + 14 + 3 * ncl, hlit + 257, hdist + 1)
  }

  // ---------- section 3.2.3: blocks ----------

  function InflateBlock(s: seq<bool>, p: nat, btype: nat, out: seq<Byte>): (r: Option<(seq<Byte>, nat)>)
    ensures r.Some? ==> p <= r.value.1 <= |s|
  {
    if btype == 0 then InflateStored(s, p, out)
    else if btype == 1 then InflateData(FixedLit(), FixedDist(), s, p, out)
    else if btype == 2 then
      var (lit, dist, q) :- ReadTrees(s, p);
      InflateData(lit, dist, s, q, out)
    else None
  }

  // All blocks from position `p` on, up to the final one.
  function InflateFrom(s: seq<bool>, p: nat, out: seq<Byte>): Option<seq<Byte>>
    decreases |s| - p
  {
    var bfinal :- ReadBits(s, p, 1);
    var btype :- ReadBits(s, p + 1, 2);
    var (out', q) :- InflateBlock(s, p + 3, btype, out);
    if bfinal == 1 then Some(out') else InflateFrom(s, q, out')
  }
}
