/** zip: the gzip member around the compressed data. */
module Gzip {
  import opened Arith
  import opened Bits
  import opened BitWriter
  import opened Rfc1951
  import opened Canonical
  import opened BlockFormat
  import opened Tally
  import opened Blocks
  import opened Encoder
  import opened Hash
  import opened Chains
  import opened Window
  import opened Search
  import opened Compressor
  import Crc
  import CrcDivision

  // ---------- RFC 1952 ----------

  // The header of a member without optional fields: ID1, ID2, CM, FLG, MTIME, XFL, OS.
  function Header(mtime: nat): (r: seq<Byte>)
    requires mtime < 0x1_0000_0000
    ensures |r| == 10
  {
    [31, 139, 8, 0] + Le32(mtime) + [2, 3]
  }

  lemma CrcBelow(text: seq<Byte>)
    ensures CrcDivision.Crc32(text) < 0x1_0000_0000 && CrcDivision.Crc32(text) == Crc.Check(text)
  {
    hide CrcDivision.Crc32, Crc.Check;
    CrcDivision.CheckIsCrc32(text);
    Crc.CheckBelow(text);
  }

  // CRC32 and ISIZE.
  function Trailer(text: seq<Byte>): (r: seq<Byte>)
    ensures |r| == 8
  {
    CrcBelow(text);
    Le32(CrcDivision.Crc32(text)) + Le32(U32(|text|))
  }

  // Reading a member with no optional fields: the check value and the length must
  // be those of the text.
  function Gunzip(bytes: seq<Byte>): Option<seq<Byte>>
  {
    if |bytes| < 18 || bytes[..4] != [31, 139, 8, 0] then None
    else
      var text :- InflateFrom(BytesBits(bytes), 80, []);
      if bytes[|bytes| - 8..] == Trailer(text) then Some(text) else None
  }

  // ---------- bytes behind a prefix ----------

  lemma {:induction false} PrefixBytes(a: seq<Byte>, b: seq<Byte>)
    requires BytesBits(a) <= BytesBits(b)
    ensures a <= b
  {
    hide BytesBits, ReadBits;
    var s := BytesBits(b);
    assert |a| <= |b|;
    forall i | 0 <= i < |a|
      ensures a[i] == b[i]
    {
      ByteAt(s, 0, a, i);
      ByteAt(s, 0, b, i);
    }
  }

  // A finished stream may be followed by anything.
  lemma FinishedPrefix(bytes: seq<Byte>, more: seq<Byte>, start: nat, text: seq<Byte>)
    requires Finished(BytesBits(bytes), start, text)
    ensures InflateFrom(BytesBits(bytes + more), start, []) == Some(text)
  {
    hide BytesBits, InflateFrom;
    BytesBitsConcat(bytes, more);
  }

  lemma MemberReads(header: seq<Byte>, body: seq<Byte>, text: seq<Byte>, mtime: nat)
    requires mtime < 0x1_0000_0000 && header == Header(mtime)
    requires header <= body && Finished(BytesBits(body), 80, text)
    ensures Gunzip(body + Trailer(text)) == Some(text)
  {
    hide BytesBits, InflateFrom, Finished, Le32, Trailer;
    var bytes := body + Trailer(text);
    FinishedPrefix(body, Trailer(text), 80, text);
    assert bytes[..4] == body[..4] == header[..4];
  }

  // ---------- zip ----------

  // The header, byte by byte.
  method WriteHeader(w: Writer, timeStamp: nat)
    requires w.Valid() && w.Bytes() == [] && w.biValid == 0 && timeStamp < 0x1_0000_0000
    modifies w, w.outbuf
    ensures w.Valid() && w.Bytes() == Header(timeStamp) && w.biValid == 0
    ensures w.Sent() == BytesBits(Header(timeStamp))
  {
    hide BytesBits, Le32;
    w.Put32(0x00088b1f);
    assert Le32(0x00088b1f) == [31, 139, 8, 0] by { Magic(); }
    w.Put32(timeStamp);
    w.Put8(2);
    w.Put8(3);
    assert w.Bytes() == Header(timeStamp);
  }

  lemma Magic()
    ensures Le32(0x00088b1f) == [31, 139, 8, 0]
  {
  }

  // The buffer sizes of one of the three memory models.
  predicate Sizes(outBufSize: nat, litBufSize: nat, inBufSize: nat, distBufSize: nat, hashBits: nat)
  {
    && outBufSize >= 3 && 0 < litBufSize <= inBufSize && litBufSize % 8 == 0 && litBufSize <= 0x8000
    && distBufSize >= 1 && HashSize(hashBits)
  }

  // What the three values of CONFIG_GZIP_FAST stand for.
  lemma MemoryModels()
    ensures Sizes(8192, 0x2000, 0x2000, 0x2000, 13)
    ensures Sizes(16384, 0x4000, 0x8000, 0x8000, 14)
    ensures Sizes(16384, 0x8000, 0x8000, 0x8000, 15)
  {
  }

  // ct_init, behind what has been written so far.
  method StartEncoder(w: Writer, litBufSize: nat, inBufSize: nat, distBufSize: nat) returns (enc: TextCoder)
    requires w.Valid() && |w.Sent()| % 8 == 0
    requires 0 < litBufSize <= inBufSize && litBufSize % 8 == 0 && litBufSize <= 0x8000 && distBufSize >= 1
    ensures enc.Valid() && enc.HasRoom() && enc.Roomy() && enc.text == [] && enc.flushed == [] && enc.all == []
    ensures enc.coder.w == w && enc.before == w.Sent() && enc.Tokens() == []
    ensures enc.coder.buf.flagBuf.Length == litBufSize / 8
    ensures forall o :: o in enc.Parts() ==> o == w || o == w.outbuf || fresh(o)
  {
    hide BytesBits, BlockCoder.Valid, TextCoder.Valid, Writer.Valid, Writer.Sent, Pow2;
    var coder := new BlockCoder(w, litBufSize, inBufSize, distBufSize);
    CoderParts(coder);
    EmptyHasRoom(coder.buf);
    enc := new TextCoder(coder);
  }

  // Compress a file. However its contents arrive, which `plan` says, and whatever
  // `memory` is in the window at the start, decompressing the result gives back
  // what was read, which is all of it unless a read failed.
  method Zip(data: seq<Byte>, plan: seq<int>, memory: seq<Byte>, timeStamp: nat, outBufSize: nat, litBufSize: nat,
             inBufSize: nat, distBufSize: nat, hashBits: nat)
    returns (bytes: seq<Byte>, failed: bool)
    requires timeStamp < 0x1_0000_0000 && |memory| == 2 * WSIZE + MAX_MATCH
    requires Sizes(outBufSize, litBufSize, inBufSize, distBufSize, hashBits)
    ensures Gunzip(bytes).Some? && Gunzip(bytes).value <= data
    ensures !failed ==> Gunzip(bytes) == Some(data)
  {
    hide BytesBits, Header, Gunzip, Writer.Valid, Writer.Sent, Writer.Bytes, HashSize, Pow2, Finished;
    var reader := new Reader(data, plan);
    var w := new Writer(outBufSize);
    WriteHeader(w, timeStamp);
    ghost var text := ZipBody(w, reader, memory, litBufSize, inBufSize, distBufSize, hashBits);
    failed := reader.failed;
    assert text <= data && (!failed ==> text == data);
    bytes := WriteTrailer(w, reader, timeStamp, text);
  }

  // The compressed data, behind what has been written so far.
  method ZipBody(w: Writer, reader: Reader, memory: seq<Byte>, litBufSize: nat, inBufSize: nat, distBufSize: nat, hashBits: nat)
    returns (ghost text: seq<Byte>)
    requires w.Valid() && |w.Sent()| % 8 == 0 && reader.Valid() && reader.pos == 0
    requires |memory| == 2 * WSIZE + MAX_MATCH
    requires 0 < litBufSize <= inBufSize && litBufSize % 8 == 0 && litBufSize <= 0x8000 && distBufSize >= 1 && HashSize(hashBits)
    modifies w, w.outbuf, reader
    ensures w.Valid() && w.biValid == 0 && reader.Valid()
    ensures text == reader.data[..reader.pos] && (reader.failed || reader.pos == |reader.data|)
    ensures old(w.Sent()) <= w.Sent() == BytesBits(w.Bytes())
    ensures Finished(w.Sent(), |old(w.Sent())|, text)
  {
    hide BytesBits, TextCoder.Valid, SlidingWindow.Holds, Indexed, Primed, Finished, Writer.Valid, Writer.Sent, HashSize, Pow2,
         Writer.Bytes, TextCoder.Parts;
    var sw := new SlidingWindow(hashBits, reader, memory);
    sw.LmInit();
    var enc := StartEncoder(w, litBufSize, inBufSize, distBufSize);
    var r := Deflate(sw, enc);
    text := enc.text;
  }

  // put_32bit(~crc) and put_32bit(isize).
  method WriteTrailer(w: Writer, reader: Reader, ghost timeStamp: nat, ghost text: seq<Byte>) returns (bytes: seq<Byte>)
    requires w.Valid() && w.biValid == 0 && timeStamp < 0x1_0000_0000 && reader.Valid() && text == reader.Text()
    requires BytesBits(Header(timeStamp)) <= BytesBits(w.Bytes())
    requires Finished(BytesBits(w.Bytes()), 80, text)
    modifies w, w.outbuf
    ensures Gunzip(bytes) == Some(text)
  {
    hide BytesBits, Header, Finished, Gunzip, Le32, U32, Xor, CrcDivision.Crc32;
    ghost var body := w.Bytes();
    PrefixBytes(Header(timeStamp), body);
    MemberReads(Header(timeStamp), body, text, timeStamp);
    CrcBelow(text);
    assert body + Le32(CrcDivision.Crc32(text)) + Le32(U32(|text|)) == body + Trailer(text);
    w.Put32(Xor(reader.crc, Crc.ONES));
    w.Put32(reader.isize);
    w.FlushOutbuf();
    bytes := w.written;
  }
}
