# Verified models of busybox algorithms

This project models the algorithmic cores of several busybox applets in Dafny
and proves what they are for. The largest part is the whole DEFLATE compressor
of gzip: from reading a file through string matching, Huffman coding and bit
packing to the finished gzip member with its CRC. The rest covers the package tables, the
version order and the dependency check of dpkg, the expression evaluator of
expr, the line breaking of fold, the line buffer of tail and the Adler-32
checksum of lzop.

`dafny verify dfyconfig.toml` checks everything.

## Layout

* Numbers and bits: `Arith`, `Bits`.
* The specification of the format: `Rfc1951` is a functional reading of RFC
  1951 that knows nothing of the compressor; `Canonical` derives what canonical
  codes are good for.
* Bit output and check value: `BitWriter`, `Crc`, `CrcDivision` (what a CRC is).
* Codes and trees: `Codes` (gen_codes), `Heap`, `Forest`, `Merging`,
  `MergeEnds`, `HeapMerge` (the heap and the merging loop of build_tree),
  `HuffmanTree`, `Optimal`, `PrefixCodes` (Huffman's argument, Kraft's
  inequality), `LengthCounts`, `NodeLengths`, `LengthRepair`, `Reassign`,
  `LengthResult` (gen_bitlen), `TreeBuild`, `HuffmanCode` (build_tree).
* Blocks: `RunLength` (scan_tree, send_tree), `Tables` (ct_init), `Tokens`,
  `Tally` (the token buffers), `BlockFormat`, `BlockSize`, `BlockTrees`,
  `BlockData`, `Blocks` (ct_tally, flush_block), `BlockChoice` (how good the
  choice of flush_block is), `Encoder`.
* Matching: `Hash`, `Chains`, `Window`, `Search` (fill_window, INSERT_STRING,
  longest_match, lm_init), `LazyMatch` (which matches are taken), `Compressor`
  (deflate), `Gzip` (zip).
* Two remarks in gzip.c made exact: `Limits` (when they hold), `Runs` and
  `LateBlock` (runs of the compressor in which they do not).
* dpkg: `Version`, `VersionLaws`, `Probing`, `PackageTables`, `Dependencies`,
  `DependencyText`, `PackageIndex`, `StatusFile`, `RecordCheck` (from the text
  of a status file through the tables to the answer), `DependencyPrint` (fields
  are read as they are written).
* `Expr`, `ExprLaws`, `Fold`, `FoldLaws`, `Tail`, `Adler`, `AdlerLaws`.

## Reading the models

Code that updates state in place is modelled by classes and methods with loops,
each proved against a function or a predicate on sequences; what the program
promises is then proved of those.

* Integers are unbounded; 16- and 32-bit wrap-around is written out (`U16`,
  `U32`) where the program can meet it.
* The window array has 258 bytes behind its 64K, with arbitrary contents. The
  condition in the disabled assertion at external/busybox/archival/gzip.c:631,
  that longest_match never looks behind the window, holds until the end of the
  input is noted (`Limits.SearchInside`) and can fail after that
  (`Runs.LookBehind`); for one string it holds if and only if
  `strstart + MAX_MATCH < 2 * WSIZE` (`Window.ReadsInside`). Nothing that is
  proved about the output depends on those bytes.
* `base`, `flushed`, `text` and `all` are ghost state: the offset of the window
  in the input, the text already in blocks, the text tallied, and all tokens.
* The remark at external/busybox/archival/gzip.c:1645-1650, that for
  LIT_BUFSIZE <= WSIZE it is never too late to store a block, holds in the two
  smaller memory models (`Limits.NeverTooLate`) and not in the large one
  (`Runs.ReachLateBlock`, `LateBlock.LatePays`): a slide leaves only MAX_DIST
  bytes before strstart. The model follows the code, which then compresses.
* longest_match does not come to every string that deflate would accept: one at
  a distance of exactly MAX_DIST is compared only as the first of its chain, and
  when three bytes are left, one that is near may be given up for one that is far
  and agrees with what happens to be behind them. `Search.Reached` and
  `LazyMatch.Excused` say exactly which.
* flush_block picks the form that seems smallest, but it compares sizes in whole
  bytes and leaves the header of a stored block out: see `BlockChoice`.
* How the input is cut into reads is a parameter: `plan` lists the size of each
  read, or an error, which ends the input as in the program. `memory` is what
  happens to be in the window before.
* dpkg: a table is searched only while it has a free slot or a match, as the
  program needs to come to an end.

## Model

| member | source | states |
|---|---|---|
| `Gzip.Zip` | external/busybox/archival/gzip.c:1983-2012 | for every file, every way its contents arrive in reads, every time stamp, every memory model and any garbage in the window, the bytes written form a gzip member that a decompressor (header check, RFC 1951 inflate, CRC and length check) turns back into exactly what was read, which is the whole file unless a read failed |
| `Gzip.ZipBody` | external/busybox/archival/gzip.c:1983-2012 | the deflate stream may stand behind any byte-aligned header: it decodes from there to the text read, whatever follows it, and ends byte aligned |
| `Gzip.WriteHeader` | external/busybox/archival/gzip.c:1989-2003 | the ten header bytes of RFC 1952, section 2.3 |
| `Gzip.WriteTrailer` | external/busybox/archival/gzip.c:2007-2011 | the CRC-32 of the text and its length mod 2^32 complete a readable member |
| `Crc.FillTable` | external/busybox/libbb/crc32.c:23-44 | entry i of the table is the shift register after eight steps from i; which register that is, CrcDivision says |
| `Crc.UpdCrc` | external/busybox/libbb/crc32.c:57-66 | the bytewise form with the table computes the bit-serial CRC register |
| `Crc.TableStep` | external/busybox/libbb/crc32.c:61-64 | one step with the table is eight steps of the register: the register is linear, and bits above the lowest eight only move down |
| `Crc.RegisterConcat` | external/busybox/archival/gzip.c:419-422 | pieces that are read one after the other give the register of the whole text |
| `Crc.OneByteChanged` | external/busybox/libbb/crc32.c:57-66 | changing one byte of a text, in whatever way, changes its check value |
| `CrcDivision.CheckIsCrc32` | external/busybox/libbb/crc32.c:23-66 | for every text the value written is CRC-32: the remainder of the message polynomial times x^32, with 32 ones in front, divided over GF(2) by x^32 + x^26 + x^23 + x^22 + x^16 + x^12 + x^11 + x^10 + x^8 + x^7 + x^5 + x^4 + x^2 + x + 1, reflected and complemented |
| `CrcDivision.RemainderLeaves` | external/busybox/libbb/crc32.c:23-66 | the remainder of that definition differs from the dividend by a multiple of the generator and has degree below 32 |
| `CrcDivision.LeavesUnique` | external/busybox/libbb/crc32.c:23-66 | there is only one such remainder |
| `CrcDivision.PolyIsGenerator` | external/busybox/libbb/crc32.c:25-25 | the constant in the program is the generator without x^32, reflected |
| `Window.Reader.UpdateCrc` | external/busybox/archival/gzip.c:419-422 | the register always belongs to exactly the bytes read so far |
| `Gzip.MemoryModels` | external/busybox/archival/gzip.c:84-131 | the three memory models meet the size requirements used throughout |
| `Gzip.PrefixBytes` | external/busybox/archival/gzip.c:397-412 | the packing of bytes into bits is injective on prefixes, so the header bytes survive at the front |
| `Compressor.Deflate` | external/busybox/archival/gzip.c:1725-1828 | over any number of lazy evaluations, window slides and blocks: the tallied tokens expand to exactly the input read, every match has length 3..258 and distance 1..MAX_DIST (at most TOO_FAR for length 3), the bits sent decode to the same text, and the size returned is the number of bytes sent, mod 2^29; every match is as long as any available at its place, and a literal stands only where none is available or a longer one starts at the next byte (available: within MAX_DIST, and among the nearest 1024 strings of the same hash; matches of three bytes that are too far away or end the text excepted) |
| `Compressor.Process` | external/busybox/archival/gzip.c:1733-1813 | one round keeps the invariant between window, dictionary, pending match and tallied text, consumes input, and outputs the token that lazy matching calls for, at the position where it belongs |
| `Compressor.Round` | external/busybox/archival/gzip.c:1733-1823 | a whole round of the main loop: State is kept, the token is that of Process, and the window slides exactly when it has to |
| `Compressor.Decide` | external/busybox/archival/gzip.c:1766-1813 | the previous match is output exactly when it is at least 3 long and the current one is not longer, with its length and distance; otherwise the byte before, if one is waiting; the token stays in the open block unless that is full or seems to compress well |
| `Compressor.FindMatch` | external/busybox/archival/gzip.c:1740-1765 | a reported match longer than the previous one lies within the lookahead and is a real repetition in the input at the reported distance, garbage behind the input notwithstanding; no string that the search comes to matches on more bytes than the reported or the previous length, except on three bytes that are too far away |
| `LazyMatch.FoundIsBest` | external/busybox/archival/gzip.c:1753-1764 | clamping to the lookahead and dropping distant matches of three bytes lose nothing else; exactly which matches may be passed over |
| `LazyMatch.NothingIsBest` | external/busybox/archival/gzip.c:1748-1751 | where deflate does not search there is nothing to find |
| `LazyMatch.BestOutdoes` | external/busybox/archival/gzip.c:1740-1765 | what the search finds in the window is the best match in the input |
| `LazyMatch.RoundWatched` | external/busybox/archival/gzip.c:1766-1813 | one round outputs the token that is due, and leaves the best match for the current string pending |
| `LazyMatch.MissedAtLimit` | external/busybox/archival/gzip.c:611-611 | a window in which ten bytes agree at a distance of exactly MAX_DIST and at most three are found |
| `LazyMatch.MissedAtEnd` | external/busybox/archival/gzip.c:1753-1764 | a window in which, with three bytes left, a match ten bytes back is given up for one that is too far away |
| `Compressor.EmitMatch` | external/busybox/archival/gzip.c:1769-1793 | the match is tallied with the right distance although match_start may have wrapped below zero; the text grows by it; a full block is flushed with all its bytes |
| `Compressor.EmitLiteral` | external/busybox/archival/gzip.c:1794-1805 | the text grows by the byte before strstart, and a full block is flushed |
| `Compressor.InsertMatch` | external/busybox/archival/gzip.c:1773-1789 | all strings up to the end of the match enter the dictionary |
| `Compressor.CopyIs` | external/busybox/archival/gzip.c:1769-1771 | copying from the given distance reproduces the repetition, also when source and target overlap |
| `Compressor.BlockStartFits` | external/busybox/archival/gzip.c:1700-1707 | block_start never leaves the range of a 32-bit lng |
| `Search.SlidingWindow.LongestMatch` | external/busybox/archival/gzip.c:605-679 | the result is the nearest of the longest matches, or prev_length with match_start untouched: no string in reach that is among the nearest 4096 of the same hash (1024 after a good match) matches on more bytes; in reach means nearer than MAX_DIST, or at MAX_DIST and first in the chain |
| `Search.ReachSearched` | external/busybox/archival/gzip.c:605-679 | when no more candidates are in reach than the chain limit, no string in reach matches on more bytes |
| `Window.CompareAt` | external/busybox/archival/gzip.c:640-664 | the unrolled comparison, which never looks at the third byte and checks the end only every eighth step, measures the common length exactly, and looks no further than CompareTop |
| `Window.ReadsInside` | external/busybox/archival/gzip.c:631-631 | no comparison for the string at s can look behind the 2 * WSIZE bytes of the window if and only if s + MAX_MATCH < 2 * WSIZE |
| `Window.TakenTop` | external/busybox/archival/gzip.c:640-664 | measuring a match looks at the byte behind it |
| `Limits.SearchInside` | external/busybox/archival/gzip.c:631-631 | before the end of the input is noted, the condition of the disabled assertion holds at every search and nothing behind the window is looked at |
| `Runs.ReachEnd` | external/busybox/archival/gzip.c:541-590 | a run on a file of 65534 bytes: the end is noted without a slide, and strstart goes on beyond WINDOW_SIZE - MIN_LOOKAHEAD |
| `Runs.LookBehind` | external/busybox/archival/gzip.c:605-679 | in the next round of that run longest_match looks at index 2 * WSIZE or beyond |
| `Runs.LiteralRun` | external/busybox/archival/gzip.c:1733-1823 | on an input in which no pair of bytes repeats within reach, every byte becomes a literal, blocks end exactly when the literal buffer is full, and the window slides at most once |
| `Window.AgreeThree` | external/busybox/archival/gzip.c:652-655 | equal hash and equal first two bytes force the third bytes to be equal |
| `Window.NoneBetween` | external/busybox/archival/gzip.c:675-676 | following a chain link skips no string with the same hash |
| `Window.NoneAtAll` | external/busybox/archival/gzip.c:605-679 | an exhausted chain leaves no longer match anywhere in reach |
| `Hash.OldByteGone` | external/busybox/archival/gzip.c:1688-1688 | after three updates the hash depends on the last three bytes only |
| `Hash.ThirdByte` | external/busybox/archival/gzip.c:652-655 | the hash of three bytes is injective in the third byte |
| `Hash.PrimedStep` | external/busybox/archival/gzip.c:1683-1688 | the running key is the hash of the string at every insertion |
| `Chains.IndexInsert` | external/busybox/archival/gzip.c:1718-1723 | inserting a string keeps the dictionary exact: every chain runs through precisely the strings with its hash, latest first |
| `Chains.IndexSlide` | external/busybox/archival/gzip.c:561-577 | moving the window down keeps the dictionary exact |
| `Chains.IndexExtend` | external/busybox/archival/gzip.c:580-587 | bytes read behind the lookahead do not disturb the dictionary |
| `Chains.LatestIs` | external/busybox/archival/gzip.c:1718-1723 | a link leads to the latest earlier string with that hash: strictly older, so chains are acyclic |
| `Search.SlidingWindow.InsertString` | external/busybox/archival/gzip.c:1718-1723 | the head returned is the latest earlier string with the same hash, and the dictionary now includes the string |
| `Search.SlidingWindow.Slide` | external/busybox/archival/gzip.c:561-578 | window contents, dictionary, rolling hash, block start and pending distance all denote the same places of the input afterwards |
| `Search.SlidingWindow.FillWindow` | external/busybox/archival/gzip.c:541-590 | at least two bytes are asked for; afterwards more lookahead is there or the end is noted; no position in the input changes |
| `Search.SlidingWindow.FillUp` | external/busybox/archival/gzip.c:1821-1822 | enough lookahead except at the end of the input; the window is left alone when the lookahead suffices |
| `Search.SlidingWindow.LmInit` | external/busybox/archival/gzip.c:1847-1883 | window, dictionary and rolling hash are consistent at the start, for any garbage in the arrays |
| `Window.Reader.FileRead` | external/busybox/archival/gzip.c:430-443 | a read delivers the planned piece of the rest, the end, or an error; nothing outside the target changes; isize follows mod 2^32, and the CRC register follows the bytes |
| `Encoder.TextCoder.Flush` | external/busybox/archival/gzip.c:1700-1707 | every flushed block extends the decoded text by exactly the tallied text; compressed_len follows the bit position mod 2^32 over all blocks |
| `Encoder.TextCoder.Finish` | external/busybox/archival/gzip.c:1700-1707 | after the last block the stream is complete, byte aligned, and its size in bytes is returned, mod 2^29 because a 32-bit counter of bits is divided by 8 |
| `Limits.StillThere` | external/busybox/archival/gzip.c:1703-1709 | the open block is still in the window if and only if it is no longer than what precedes strstart there; always when it has at most MAX_DIST bytes |
| `Limits.LiteralsStorable` | external/busybox/archival/gzip.c:1643-1650 | with at most MAX_DIST + 1 literal entries a block of literals can always be stored |
| `Limits.StoredIsShort` | external/busybox/archival/gzip.c:1619-1643 | when storing n bytes as t tokens pays off against the static form, 3n + 30 <= 5t |
| `Limits.NeverTooLate` | external/busybox/archival/gzip.c:1643-1650 | with a literal buffer of at most 19510 entries, so in the two smaller memory models, every block for which storing pays off is still in the window, whatever matches it has |
| `Runs.ReachLateBlock` | external/busybox/archival/gzip.c:1643-1650 | with LIT_BUFSIZE 0x8000 a run comes to a block of 32766 literals that starts before the window |
| `Runs.FlushTooLate` | external/busybox/archival/gzip.c:1794-1805 | in the next round that block is flushed without being storable |
| `LateBlock.LatePays` | external/busybox/archival/gzip.c:1619-1643 | whatever codes are built for that block, storing it would have paid off: every byte value occurs equally often, so no prefix code saves anything |
| `Blocks.BlockCoder.FlushBlock` | external/busybox/archival/gzip.c:1597-1679 | whichever form is picked, the bits sent decode under RFC 1951 to the text from block_start to strstart; compressed_len grows by exactly the bits sent |
| `Blocks.Choice` | external/busybox/archival/gzip.c:1619-1667 | the comparisons of 32-bit counters pick stored when the data is in the window and its length plus 4 is at most both other sizes in bytes, static before dynamic on a tie |
| `BlockChoice.NearlyShortest` | external/busybox/archival/gzip.c:1619-1667 | the block sent is at most 17 bits longer than any other form would be |
| `BlockChoice.ShortestIff` | external/busybox/archival/gzip.c:1619-1667 | exactly when it is the shortest: a stored block if its header and padding fit as well, a static one if it is no longer than the dynamic one in bits, a dynamic one always; a block that is not stored is shorter than the stored form |
| `BlockChoice.NotTheSmallest` | external/busybox/archival/gzip.c:1643-1655 | for 22 bytes the stored form is sent in at least 211 bits although the static form takes 208 |
| `BlockChoice.SymsCost` | external/busybox/archival/gzip.c:1368-1419 | any run-length coding of lengths takes a bit for each length in a stretch without four equal ones in a row |
| `Blocks.ChosenDecodes` | external/busybox/archival/gzip.c:1630-1667 | each of the three forms stands for the tokens of the block |
| `Blocks.StoredLength` | external/busybox/archival/gzip.c:1651-1653 | rounding compressed_len follows the bit position even across 32-bit wrap-around |
| `Blocks.BlockCoder.EncodeBlock` | external/busybox/archival/gzip.c:1602-1667 | trees are built, the block is sent, and its predicted size is its real size |
| `Blocks.BlockCoder.BuildBlockTrees` | external/busybox/archival/gzip.c:1604-1617 | opt_len and static_len are exactly the sizes of the dynamic and the static block, without any 32-bit overflow |
| `Blocks.BlockCoder.CtTally` | external/busybox/archival/gzip.c:1490-1540 | the token and its symbol counts are recorded without 16-bit overflow; a flush is asked for when the block is full, and otherwise only for a block of more than two bytes for each token; when none is asked for there is room for another token |
| `Blocks.Estimate` | external/busybox/archival/gzip.c:1519-1531 | the estimated size in bytes is at least the number of tokens, without 32-bit overflow |
| `Blocks.BlockCoder.InitBlock` | external/busybox/archival/gzip.c:1001-1019 | an empty block, end-of-block counted once |
| `Blocks.BlockCoder.constructor` | external/busybox/archival/gzip.c:1892-1975 | the coder is ready for the first block |
| `BlockFormat.BlockDecodes` | external/busybox/archival/gzip.c:1650-1664 | a block header and a decodable body make a decodable block |
| `BlockFormat.AddBlock` | external/busybox/archival/gzip.c:1597-1679 | blocks compose: what was produced so far is extended by one block, or finished by the last |
| `BlockFormat.StoredDecodes` | external/busybox/archival/gzip.c:513-531 | alignment, LEN, NLEN and bytes decode by section 3.2.4 of RFC 1951 |
| `BlockFormat.StaticDecodes` | external/busybox/archival/gzip.c:1657-1660 | section 3.2.6 of RFC 1951 reads the tokens back |
| `BlockFormat.DynamicDecodes` | external/busybox/archival/gzip.c:1661-1666 | section 3.2.7 of RFC 1951 reads both codes and the tokens back |
| `BlockFormat.ReadTreesFinds` | external/busybox/archival/gzip.c:1461-1483 | the counts, the permuted code lengths and the run-length coded trees are read back exactly |
| `BlockSize.DataSize` | external/busybox/archival/gzip.c:1104-1114 | sum of frequency times length, extra bits included, equals the number of bits compress_block sends |
| `BlockSize.SymsSize` | external/busybox/archival/gzip.c:1104-1114 | the same for the code length symbols of both trees |
| `BlockTrees.BuildDataTrees` | external/busybox/archival/gzip.c:1604-1613 | after both trees opt_len and static_len are the exact sizes of the block data; only symbols that occur have a code |
| `BlockTrees.BuildBlTree` | external/busybox/archival/gzip.c:1426-1453 | the third tree codes every symbol needed, and opt_len grows by exactly the size of the tree representation |
| `BlockTrees.LastBlIndex` | external/busybox/archival/gzip.c:1440-1448 | at least four code lengths are sent and all later ones are zero |
| `BlockTrees.SomeLengthSent` | external/busybox/archival/gzip.c:1440-1448 | some non-zero length is always sent literally, which is why the loop cannot fall below four |
| `BlockTrees.WholeCode` | external/busybox/archival/gzip.c:1461-1475 | leaving out the unused symbols at the end does not change any code |
| `BlockData.CompressBlock` | external/busybox/archival/gzip.c:1546-1587 | the buffered literals, lengths, distances and flags yield exactly the token bits and the end-of-block code |
| `BlockData.SendMatch` | external/busybox/archival/gzip.c:1566-1583 | length code, extra bits, distance code, extra bits |
| `BlockData.SendAllTrees` | external/busybox/archival/gzip.c:1461-1483 | exactly the tree description that the decoder expects |
| `Tally.TokenBuffer.Append` | external/busybox/archival/gzip.c:1492-1517 | l_buf, d_buf and the flag bytes together hold the token sequence |
| `Tally.TokenBuffer.SaveLastFlags` | external/busybox/archival/gzip.c:1602-1602 | all flags are saved, the last partial group included |
| `Tally.TokenBuffer.Reset` | external/busybox/archival/gzip.c:1014-1018 | the buffers are empty |
| `Tally.LitsCountedAppend` | external/busybox/archival/gzip.c:1493-1506 | literal and length frequencies count the symbols of the tokens, and cannot overflow 16 bits |
| `Tally.DistsCountedAppend` | external/busybox/archival/gzip.c:1507-1508 | distance frequencies likewise |
| `Tokens.InflateDataFinds` | external/busybox/archival/gzip.c:1546-1587 | a decoder with the same codes recovers the tokens and their text |
| `Tokens.ReadMatchFinds` | external/busybox/archival/gzip.c:1566-1583 | the decoder recovers length and distance of a match from its bits |
| `Tokens.ExpandConcat` | external/busybox/archival/gzip.c:1490-1540 | tokens of consecutive blocks expand one after the other |
| `Tables.InitLengths` | external/busybox/archival/gzip.c:1904-1918 | every normalized length gets the code whose range holds it, 255 its own code |
| `Tables.InitDistances` | external/busybox/archival/gzip.c:1920-1939 | every normalized distance gets the code whose range holds it, through both halves of the table |
| `Tables.CodeTables.DCode` | external/busybox/archival/gzip.c:989-996 | the two-level lookup is the distance code |
| `Tables.LengthCodeHolds` | external/busybox/archival/gzip.c:1904-1918 | base plus extra bits represent every match length |
| `Tables.DistCodeHolds` | external/busybox/archival/gzip.c:1920-1939 | base plus extra bits represent every distance up to 32K |
| `Tables.StaticTrees` | external/busybox/archival/gzip.c:1941-1972 | the static trees hold the codes of section 3.2.6 of RFC 1951 |
| `Tables.CodeTables.constructor` | external/busybox/archival/gzip.c:1892-1972 | all tables are correct from the start |
| `HuffmanCode.BuildTree` | external/busybox/archival/gzip.c:1223-1306 | exactly the symbols that occur (or are forced) get a code, the Kraft sum is exactly 1, the codes are the canonical ones; the lengths are the depths in a Huffman tree of minimal cost if and only if its height is at most max_length; a rarer symbol never gets a shorter code, and both size counters grow by exactly the bits of the real occurrences (forced codes cost nothing) |
| `HuffmanTree.HighIsHeavy` | external/busybox/archival/gzip.c:1273-1294 | a tree of height h made by the merging loop stands for at least Fib(h + 2) occurrences |
| `Merging.GrowStep` | external/busybox/archival/gzip.c:1273-1294 | a merge keeps what makes trees heavy: no node is heavier than the brother of its father |
| `HuffmanTree.ExcessMeansHigh` | external/busybox/archival/gzip.c:1092-1099 | lengths are clamped if and only if the tree is higher than max_length |
| `HuffmanTree.DeepestLeaf` | external/busybox/archival/gzip.c:1092-1099 | the height is the depth of the deepest leaf |
| `PrefixCodes.KraftInequality` | external/busybox/archival/gzip.c:1223-1306 | every prefix code satisfies Kraft's inequality |
| `PrefixCodes.BestPrefixCode` | external/busybox/archival/gzip.c:1223-1306 | when the tree is no higher than max_length, no prefix code at all takes fewer bits |
| `PrefixCodes.FewOccurrences` | external/busybox/archival/gzip.c:1069-1154 | with fewer than Fib(max_length + 3) occurrences no length is clamped |
| `PrefixCodes.FibLimits` | external/busybox/archival/gzip.c:1069-1154 | these bounds are 2584 for the data trees and 55 for the code length tree |
| `PrefixCodes.BuiltIsPrefixCode` | external/busybox/archival/gzip.c:1223-1306 | the code that was built is itself a prefix code with those lengths |
| `Optimal.MergeTwo` | external/busybox/archival/gzip.c:1273-1294 | any lengths that fit can be changed, without extra cost, so that the two lightest items share a father |
| `Optimal.ReachesStep` | external/busybox/archival/gzip.c:1273-1294 | merging the two lightest nodes keeps the lower bound on the cost of any code |
| `Heap.PqDownHeap` | external/busybox/archival/gzip.c:1034-1058 | sifting down restores the heap order and only permutes the heap |
| `Heap.RootSmallest` | external/busybox/archival/gzip.c:1034-1058 | the root of a heap is its least element |
| `HeapMerge.Builder.PqRemove` | external/busybox/archival/gzip.c:1216-1221 | the least element leaves, the rest stays a heap |
| `HeapMerge.Builder.TakeTwo` | external/busybox/archival/gzip.c:1274-1276 | the two nodes combined are the two least frequent ones |
| `HeapMerge.Builder.Heapify` | external/busybox/archival/gzip.c:1264-1268 | sub-heaps of increasing size make the whole array a heap |
| `HeapMerge.Builder.MergeStep` | external/busybox/archival/gzip.c:1273-1294 | one merge keeps the forest: full binary trees, fathers before sons, nodes taken out in order of frequency, the two ends of the heap array apart, cost still unavoidable |
| `HeapMerge.Builder.MergeAll` | external/busybox/archival/gzip.c:1270-1297 | the loop ends with one full binary tree over the symbols, its nodes listed fathers first in heap[heap_max..], at minimal cost, and as heavy as its height asks for |
| `TreeBuild.CollectUsed` | external/busybox/archival/gzip.c:1237-1244 | the heap array holds exactly the symbols that occur |
| `TreeBuild.ForceTwo` | external/busybox/archival/gzip.c:1251-1261 | at least two codes; the size counters are corrected for each forced one |
| `HuffmanTree.DadDepth` | external/busybox/archival/gzip.c:1094-1099 | a node is one deeper than its father, so overwriting Dad by Len in list order is safe |
| `NodeLengths.FirstPass` | external/busybox/archival/gzip.c:1087-1115 | every node gets its clamped depth; counts, overflow and size counters match |
| `HuffmanTree.ClampedKraft` | external/busybox/archival/gzip.c:1092-1099 | clamping oversubscribes the code space by exactly the excess |
| `HuffmanTree.ClampedCount` | external/busybox/archival/gzip.c:1092-1099 | the number of clamped nodes is even: twice the excess |
| `LengthRepair.RepairCounts` | external/busybox/archival/gzip.c:1121-1133 | the loop ends without underflow, keeps the number of codes and makes the Kraft sum exactly 1 |
| `Reassign.HandOut` | external/busybox/archival/gzip.c:1135-1153 | lengths are handed out as counted, by rarity, and opt_len is corrected |
| `LengthResult.GenBitlen` | external/busybox/archival/gzip.c:1069-1154 | lengths are complete (Kraft sum 1); they are the depths in the tree if its height is at most max_length, and otherwise some length is max_length and rarer symbols have longer codes; sizes are exact |
| `Codes.BiReverse` | external/busybox/archival/gzip.c:478-488 | sent least significant bit first, the result reads as the code from its most significant bit |
| `Codes.FirstCodes` | external/busybox/archival/gzip.c:1165-1180 | next_code is the first code of each length of section 3.2.2 of RFC 1951, within 16 bits |
| `Codes.GenCodes` | external/busybox/archival/gzip.c:1165-1198 | for any lengths with Kraft sum at most 1, every element holds its canonical code, ready to send |
| `Canonical.CodeFits` | external/busybox/archival/gzip.c:1165-1198 | every code is below 2^length |
| `Canonical.PrefixFree` | external/busybox/archival/gzip.c:1165-1198 | no code is a prefix of another |
| `Canonical.DecodeFinds` | external/busybox/archival/gzip.c:1165-1198 | a decoder finds exactly the symbol whose code stands in the stream |
| `Canonical.TruncatedCode` | external/busybox/archival/gzip.c:1663-1664 | sending only the lengths up to max_code leaves every code as it is |
| `RunLength.ScanTree` | external/busybox/archival/gzip.c:1315-1361 | the frequencies counted are exactly those of the symbols that send_tree will send |
| `RunLength.SendTree` | external/busybox/archival/gzip.c:1368-1419 | exactly those symbols are sent with their codes and counts |
| `RunLength.RleRoundTrip` | external/busybox/archival/gzip.c:1368-1419 | for any lengths after any other lengths, section 3.2.7 of RFC 1951 gives the same sequence back |
| `RunLength.RleFits` | external/busybox/archival/gzip.c:1368-1419 | every repeat count fits its extra bits |
| `RunLength.ReadLengthsFinds` | external/busybox/archival/gzip.c:1368-1419 | a decoder that knows the code length code reads the lengths back |
| `RunLength.SendCode` | external/busybox/archival/gzip.c:980-980 | SEND_CODE appends the canonical code |
| `BitWriter.Writer.SendBits` | external/busybox/archival/gzip.c:450-470 | the bits are appended least significant first (section 3.1.1 of RFC 1951), independent of buffering |
| `BitWriter.Writer.BiWindup` | external/busybox/archival/gzip.c:494-506 | zero bits only, up to the next byte boundary |
| `BitWriter.Writer.CopyBlock` | external/busybox/archival/gzip.c:513-531 | padding, LEN and its complement, then the bytes |
| `BitWriter.Writer.Put16` | external/busybox/archival/gzip.c:397-406 | two bytes, least significant first, on either path |
| `BitWriter.Writer.Put32` | external/busybox/archival/gzip.c:408-412 | four bytes, least significant first |
| `BitWriter.Writer.Put8` | external/busybox/archival/gzip.c:390-394 | one byte more, whether or not the buffer is written out |
| `BitWriter.Writer.FlushOutbuf` | external/busybox/archival/gzip.c:377-384 | writing out changes nothing but where the bytes are |
| `Version.VersionComparePart` | external/busybox/archival/dpkg.c:228-265 | the sign of the result is the order of section 5.6.12 of the Debian Policy Manual on alternating parts |
| `Version.KeyIsPolicy` | external/busybox/archival/dpkg.c:228-265 | that order is the lexicographic order of zero-padded integer keys |
| `Version.VersionCompare` | external/busybox/archival/dpkg.c:271-322 | epoch, then upstream version, then revision |
| `Version.VersionPreorder` | external/busybox/archival/dpkg.c:271-322 | on all strings: reflexive, antisymmetric in sign, transitive, and versions that compare equal are interchangeable |
| `Version.CompareNumbers` | external/busybox/archival/dpkg.c:244-259 | digit strings of any length and with leading zeros compare as numbers |
| `Version.TestVersion` | external/busybox/archival/dpkg.c:324-342 | the operators mean what the order says |
| `Version.EqualVersionsMeet` | external/busybox/archival/dpkg.c:324-342 | versions that compare equal meet the same restrictions |
| `VersionLaws.TildeFirst` | external/busybox/archival/dpkg.c:217-225 | a tilde sorts before letters, before other characters and before the end, behind any common beginning |
| `VersionLaws.EndFirst` | external/busybox/archival/dpkg.c:217-225 | the end sorts before letters and before other characters |
| `VersionLaws.LettersFirst` | external/busybox/archival/dpkg.c:217-225 | letters sort before all characters that are neither letter, digit nor tilde |
| `VersionLaws.CodesDecide` | external/busybox/archival/dpkg.c:217-225 | among letters, and among other characters, the code decides |
| `VersionLaws.NumbersByValue` | external/busybox/archival/dpkg.c:244-259 | numbers behind a common beginning sort by their values, whatever follows |
| `VersionLaws.SplitWhole` | external/busybox/archival/dpkg.c:271-316 | a version written as epoch, colon, upstream version, dash, revision is taken apart into these, whatever colons and dashes the upstream version has |
| `VersionLaws.SplitPlain` | external/busybox/archival/dpkg.c:271-316 | without a colon the epoch is 0, and without a dash there is no revision |
| `VersionLaws.EpochFirst` | external/busybox/archival/dpkg.c:278-293 | the larger epoch wins over everything else |
| `VersionLaws.PreRelease` | external/busybox/archival/dpkg.c:217-225 | a version with a tilde precedes the version that ends there |
| `Probing.NoMultiple` | external/busybox/archival/dpkg.c:60-71 | a prime divides no product of smaller numbers |
| `Probing.VisitsAll` | external/busybox/archival/dpkg.c:177-194 | with a prime table size every probe sequence comes to every slot |
| `Probing.SearchEnds` | external/busybox/archival/dpkg.c:177-194 | a search ends while a slot is free or matches |
| `Probing.NothingMissed` | external/busybox/archival/dpkg.c:344-366 | a search that ends at a free slot has missed nothing |
| `Probing.NamePrime` | external/busybox/archival/dpkg.c:76-76 | 16381 is prime |
| `Probing.PackagePrime` | external/busybox/archival/dpkg.c:86-86 | 10007 is prime |
| `Probing.StatusPrime` | external/busybox/archival/dpkg.c:104-104 | 8191 is prime |
| `PackageTables.MakeHash` | external/busybox/archival/dpkg.c:157-174 | start and decrement are in range and depend on the key only |
| `PackageTables.SearchName` | external/busybox/archival/dpkg.c:177-194 | the slot returned holds the name; no entered name ever moves; names stay distinct and findable |
| `PackageTables.NamesInjective` | external/busybox/archival/dpkg.c:177-194 | two entered names are equal exactly when their slots are |
| `PackageTables.MoreNames` | external/busybox/archival/dpkg.c:177-194 | entering names leaves every package findable |
| `PackageTables.SearchPackage` | external/busybox/archival/dpkg.c:344-366 | a suitable package is returned if and only if there is one anywhere in the table; otherwise the free slot where it belongs |
| `PackageTables.StorePackage` | external/busybox/archival/dpkg.c:669-676 | replaces the package of that name and an equal version, or adds it where a search ends; the table stays searchable and without twins |
| `PackageTables.PackageStored` | external/busybox/archival/dpkg.c:669-676 | every package stays findable after the update |
| `Dependencies.PackageDb.SearchStatus` | external/busybox/archival/dpkg.c:199-215 | finds the status of a package name if and only if there is one |
| `Dependencies.GetStatus` | external/busybox/archival/dpkg.c:680-699 | the word with that number |
| `Dependencies.PackageDb.PackageSatisfies` | external/busybox/archival/dpkg.c:951-966 | pre-dependencies need an installed package, dependencies a wanted one |
| `Dependencies.PackageDb.SearchForProvides` | external/busybox/archival/dpkg.c:383-396 | the next provider, or none |
| `Dependencies.PackageDb.EdgeMet` | external/busybox/archival/dpkg.c:1101-1130 | met directly by name and version, or through some provider |
| `Dependencies.PackageDb.ScanEdges` | external/busybox/archival/dpkg.c:1080-1160 | the flat scan with its counting and skipping accepts exactly when each group has an alternative that is met |
| `Dependencies.PackageDb.CheckDeps` | external/busybox/archival/dpkg.c:1052-1165 | accepts if and only if that holds for every package wanted for install |
| `DependencyText.AddSplitDependencies` | external/busybox/archival/dpkg.c:417-507 | the edges are those of the fields of the line in order, or an illegal operator is reported |
| `DependencyText.AddField` | external/busybox/archival/dpkg.c:435-500 | the OR edge counts the alternatives that follow it |
| `DependencyText.FieldMeaning` | external/busybox/archival/dpkg.c:405-416 | the edges of one field form one group, met when one alternative is |
| `DependencyText.LineMeaning` | external/busybox/archival/dpkg.c:405-416 | a whole line is met when every field is met by one of its alternatives |
| `DependencyText.PackageMeaning` | external/busybox/archival/dpkg.c:639-663 | for all listings of a package together: its dependencies are met exactly when every field of every dependency line has an alternative that is met |
| `DependencyText.JoinedEdges` | external/busybox/archival/dpkg.c:639-663 | edges of several lines in one package are met when each line is |
| `DependencyPrint.AltRead` | external/busybox/archival/dpkg.c:453-490 | an alternative written as a name, or as name (op version) with one of = << <= >> >=, is read as exactly that operator, name and version, with any blanks around it |
| `DependencyPrint.FieldRead` | external/busybox/archival/dpkg.c:435-500 | a field of alternatives separated by bars is read as one edge for each, led by one that counts them |
| `DependencyPrint.LineRead` | external/busybox/archival/dpkg.c:417-507 | a whole line of fields separated by commas is read as it is written |
| `DependencyPrint.SpellingMeans` | external/busybox/archival/dpkg.c:324-342 | = << <= >> >= ask for an equal, earlier, not later, later, not earlier version |
| `DependencyPrint.LineMet` | external/busybox/archival/dpkg.c:1101-1130 | a written dependency line is met if and only if every field has an alternative that is met, in the words of the line |
| `PackageIndex.InternEdges` | external/busybox/archival/dpkg.c:444-497 | the edges are the parsed ones with every string replaced by its number in the name table, which holds them all; no name moves |
| `PackageIndex.Enter` | external/busybox/archival/dpkg.c:177-194 | the number of a name is unique and stays the same; a table that can hold all names that will come always has room |
| `PackageIndex.EmptyValid` | external/busybox/archival/dpkg.c:113-115 | empty tables are valid |
| `PackageIndex.NamesGrow` | external/busybox/archival/dpkg.c:177-194 | entering names keeps all tables valid |
| `PackageIndex.PackageKept` | external/busybox/archival/dpkg.c:673-676 | storing a package keeps all tables valid, and every status keeps its package name |
| `PackageIndex.StatusKept` | external/busybox/archival/dpkg.c:773-775 | entering a status keeps all tables valid: one for each name, where a search finds it |
| `StatusFile.ReadListings` | external/busybox/archival/dpkg.c:639-663 | the edges of all listings of a record in order, or an illegal operator is reported |
| `StatusFile.FillNode` | external/busybox/archival/dpkg.c:606-668 | name, version and edges are entered; a version that is missing is recognised by its number |
| `StatusFile.EnterPackage` | external/busybox/archival/dpkg.c:669-676 | the package table then stands for the records so far, each replaced by a later one with the same name and an equal version |
| `StatusFile.EnterStatus` | external/busybox/archival/dpkg.c:765-775 | the status table then holds the last status for each name |
| `StatusFile.AddRecord` | external/busybox/archival/dpkg.c:754-783 | one more record: the tables stand for the longer list of records; only an illegal operator is refused |
| `StatusFile.ListedStored` | external/busybox/archival/dpkg.c:673-676 | the slot that is filled or replaced is the only one whose record changes |
| `RecordCheck.MetIsText` | external/busybox/archival/dpkg.c:1101-1130 | an alternative is met in the tables exactly when the text of the records says so |
| `RecordCheck.DepsAreText` | external/busybox/archival/dpkg.c:1052-1165 | check_deps decides what the records ask for: every field of every dependency line of every wanted package has an alternative that is met |
| `RecordCheck.CheckRecords` | external/busybox/archival/dpkg.c:754-783 | from the text of a status file to the answer of check_deps, over all tables: accepted if and only if every field of every dependency line of every wanted package has an alternative met by a current package of a suitable version with a suitable status, or by a provider |
| `RecordCheck.StatusOfWhich` | external/busybox/archival/dpkg.c:951-966 | version and status may come from different packages: each dependency met directly is met by the package that has the status if and only if one version of it is listed |
| `RecordCheck.InstalledOne` | external/busybox/archival/dpkg.c:1101-1130 | with foo 1 installed and foo 2 merely listed, a pre-dependency on foo (>= 2) counts as met |
| `RecordCheck.StatusWords` | external/busybox/archival/dpkg.c:680-699 | the three words of a status are found as they are written |
| `RecordCheck.StatusAllows` | external/busybox/archival/dpkg.c:951-966 | a pre-dependency asks for the state installed, a dependency for the wish install |
| `Expr.EvaluatesTree` | external/busybox/coreutils/expr.c:403-516 | for every tree written with minimal parentheses, by an enumerated precedence of the operators, evaluation uses exactly its tokens and gives its strict, left-to-right meaning, or fails as the meaning fails |
| `Expr.LevelsAre` | external/busybox/coreutils/expr.c:403-516 | the functions of the evaluator call each other in that precedence: * / % before + -, before comparisons, before &, before | |
| `ExprLaws.Precedence` | external/busybox/coreutils/expr.c:403-516 | for all operands, the tighter of two operators takes its operands first, on either side of the other |
| `ExprLaws.Association` | external/busybox/coreutils/expr.c:403-516 | operators of one kind associate to the left |
| `ExprLaws.Parentheses` | external/busybox/coreutils/expr.c:303-310 | parentheses override both |
| `ExprLaws.Spelled` | external/busybox/coreutils/expr.c:403-516 | the spelling of every operator |
| `ExprLaws.Truth` | external/busybox/coreutils/expr.c:481-516 | for | and & the empty string and 0 count as false |
| `ExprLaws.ReadsPrinted` | external/busybox/coreutils/expr.c:156-183 | every 64-bit number is read as it is printed |
| `Expr.Reads` | external/busybox/coreutils/expr.c:403-516 | the same at every level, inside any other tokens |
| `Expr.WholeTree` | external/busybox/coreutils/expr.c:519-536 | the command line of a tree has the value of the tree |
| `Expr.Evaluator.Eval` | external/busybox/coreutils/expr.c:501-516 | returns the value of the loosest level (the or operator) and leaves the cursor behind it; terminates |
| `Expr.Evaluator.Eval1` | external/busybox/coreutils/expr.c:481-497 | level & |
| `Expr.Evaluator.Eval2` | external/busybox/coreutils/expr.c:451-477 | comparisons |
| `Expr.Evaluator.Eval3` | external/busybox/coreutils/expr.c:427-447 | + and - |
| `Expr.Evaluator.Eval4` | external/busybox/coreutils/expr.c:403-423 | *, / and % |
| `Expr.Evaluator.Eval7` | external/busybox/coreutils/expr.c:296-316 | operands and parentheses |
| `Expr.Evaluator.EvalAll` | external/busybox/coreutils/expr.c:519-536 | the whole command line must be one expression |
| `Expr.CmpCommon` | external/busybox/coreutils/expr.c:196-222 | two numbers compare as numbers, anything else as strings: the first place where they differ decides, and a string precedes its continuations |
| `Expr.CompareIs` | external/busybox/coreutils/expr.c:203-207 | strcmp finds that place |
| `Expr.ArithmeticCommon` | external/busybox/coreutils/expr.c:226-245 | non-numbers and division by zero fail; a sum, difference or product is the 64-bit number congruent to the exact one; quotient q and remainder r satisfy a = b * q + r with |r| < |b| and r of the sign of a |
| `Expr.DivisionUnique` | external/busybox/coreutils/expr.c:236-243 | these conditions determine quotient and remainder |
| `Expr.ComputesUnique` | external/busybox/coreutils/expr.c:226-245 | the conditions determine the result |
| `Expr.ApplyComputes` | external/busybox/coreutils/expr.c:226-245 | the meaning of arithmetic trees meets the same conditions |
| `Fold.FoldFile` | external/busybox/coreutils/fold.c:94-167 | the output without the inserted newlines is the input; no line passes the width after its first character, and at the first only with a tab; a newline is inserted only where the line, the rest of the word behind it and the next character would pass the width, behind the last blank if there is one and blanks are asked for |
| `Fold.FoldChar` | external/busybox/coreutils/fold.c:107-163 | one character, with all its rescans: terminates and keeps the invariant |
| `Fold.RemainderFits` | external/busybox/coreutils/fold.c:140-155 | what is moved to the next line fits there |
| `Fold.ColumnMono` | external/busybox/coreutils/fold.c:34-56 | starting further left never ends further right |
| `Fold.LastBlank` | external/busybox/coreutils/fold.c:136-157 | the last blank, if there is one |
| `FoldLaws.TabStop` | external/busybox/coreutils/fold.c:40-41 | a tab moves to the least multiple of 8 above the column |
| `FoldLaws.Controls` | external/busybox/coreutils/fold.c:34-56 | a backspace moves back by one and not below 0, a return to 0 |
| `FoldLaws.CharacterColumns` | external/busybox/coreutils/fold.c:34-56 | with Unicode, the column of a UTF-8 text without control characters is its number of characters |
| `FoldLaws.ByteColumns` | external/busybox/coreutils/fold.c:34-56 | counting bytes, or without Unicode, it is its number of bytes |
| `Tail.LineBuffer.Read` | external/busybox/coreutils/tail.c:278-320 | after any chunk the buffer holds exactly the last count lines of all that was read |
| `Tail.TailLines` | external/busybox/coreutils/tail.c:252-325 | the output is the last lines of the input however it is cut into reads, each as long as there is room in the buffer at most |
| `Tail.LastLinesMeans` | external/busybox/coreutils/tail.c:285-325 | what the last lines are: whole lines from the end, count of them or all |
| `Tail.LastLinesMore` | external/busybox/coreutils/tail.c:296-314 | lines dropped earlier make no difference |
| `Tail.LineBuffer.CountNewlines` | external/busybox/coreutils/tail.c:286-294 | newlines of the last read |
| `Tail.LineBuffer.SkipLines` | external/busybox/coreutils/tail.c:303-310 | the position behind the lines to drop |
| `Adler.Adler32` | external/busybox/archival/lzop.c:465-492 | equal to the byte-by-byte definition of section 2.2 of RFC 1950 from every start value |
| `Adler.NeverOverflows` | external/busybox/archival/lzop.c:468-473 | no sum passes 32 bits in NMAX steps, whatever the start |
| `Adler.ChecksumConcat` | external/busybox/archival/lzop.c:465-492 | hashing a concatenation is hashing the pieces in turn |
| `AdlerLaws.ChecksumIs` | external/busybox/archival/lzop.c:465-492 | in closed form: 1 plus the sum of the bytes, and n plus the sum of (n - i) times byte i, both modulo 65521 |

## Left out

- gzip options, file handling and the storing of a whole file without block header, which `seekable()` switches off (external/busybox/archival/gzip.c:1631-1641).
- The branch of fill_window for 16-bit machines (external/busybox/archival/gzip.c:552-556): the window never has more than 64K bytes, so it cannot be taken.
- Bytes behind the window: the model gives the array 258 more bytes instead of modelling a read out of bounds.
- The sharing of one memory block by `prev` and `head`: they are two arrays.
- HuffmanCode.BuildTree: when the tree is higher than max_length, nothing is claimed about how far the cost is from the minimum.
- PackageTables.MakeHash: characters above 127, whose sign depends on the machine, count as positive numbers.
- PackageTables.SearchName: when the table is full and the name is new the program does not end; this case is excluded.
- Dependencies.GetStatus: status words are compared as strings; the program enters them in the name table and compares slots, which is the same by `NamesInjective`.
- Dependencies.PackageDb.ScanEdges: the message for corrupt dependency lists is not modelled, since the edges made by add_split_dependencies never lead to it.
- DependencyText.AddSplitDependencies: a parenthesis without an operator, where the program leaves the operator unset, counts as illegal; lines with an empty field, on which the program would follow a null pointer, are excluded.
- StatusFile.AddRecord: a record comes with its fields already split; a missing name or status, which the program leaves as 0 or unset, is not modelled.
- RecordCheck.CheckRecords: status files with more names, packages or package names than the tables can hold are excluded, since the program does not come to an end on them.
- The conflict phase of check_deps, set_status, the splitting of records into fields, scripts and archives of dpkg.
- Version.VersionCompare: an epoch beyond 32 bits wraps, where atoi is undefined.
- Expr.Evaluator.Eval7: the keywords match, substr, index, length and quote, and the operator `:`, end in the outcome `Unmodelled`.
- Expr.ArithmeticCommon: overflow wraps at 64 bits, where C leaves it undefined; 32-bit builds are not modelled.
- fold: file arguments, option parsing and the growth of the line buffer.
- tail: byte counts, output from the top, following files, and the seek shortcut.
- lzop: everything but the checksum.
- The remaining busybox applets.
