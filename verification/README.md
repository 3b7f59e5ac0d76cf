# Image decoders, text codecs, object pool and send queue: verified models

This project models the parts of a game client's native library whose behaviour is hardest to see from the code, and
proves what they are for. Each part has a reference meaning that says what the result should be, a model in the
source's own form (classes, arrays, loops and bit operations), and theorems that connect the two for all inputs, all
runs or all interleavings. The names in parentheses are files.

- **Numbers and bits** (`Bits`, `BitReversal`, `BitRegister`, `Canonical`, `Wrappers`). Shifts, masks and 32-bit
  registers are written out on natural numbers; bit strings are read from a byte sequence that continues with zeros.
  `Canonical` holds canonical Huffman codes as RFC 1951, section 3.2.2, and ITU-T T.81, annex C, assign them.
- **Inflate** (`ZHuffman`, `ZDecode`, `ZBuf`, `InflateSpec`, `InflateCases`, `Fetching`, `DeflateValues`,
  `DeflateEncoding`, `DeflateStream`, `RefusedStream`).
  `InflateSpec` is a decoder over bit positions in the words of RFC 1951 and RFC 1950. The class `ZBuf` is the decoder
  with its bit reservoir, two-level tables, growing output and overlapping copies, and refines it. `Fetching` says
  how many bytes have been fetched at each point, which decides whether a code at the end of the input is refused. The
  encoding modules say how streams are written and prove that the reference accepts exactly the written streams;
  `DeflateValues` says what lengths, distances and matches are without the tables and the loop of the decoder.
- **JPEG entropy decoding** (`JpegTable`, `JpegHuffman`, `JpegSpec`, `JpegFastAc`, `JpegSupply`, `JpegExact`,
  `JpegDecoder`, `JpegBlock`, `JpegEncoding`). `JpegSpec` is T.81, section F.2.2, over the unstuffed bytes of a scan; the
  classes keep a 32-bit register, a nine-bit table, a preshifted scan, and a fused table for short AC codes. `JpegSupply`
  says what has been loaded at each point, and `JpegExact` what a block decodes to, also where the data ends inside it.
  `JpegEncoding` says how blocks are written and proves that decoding is the inverse.
- **PNG reconstruction** (`PngFilters`, `PngRows`, `PngExpand`, `PngBytes`, `PngImage`, `PngPasses`, `PngInterlace`,
  `PngPixels`). Filters of RFC 2083, section 6, and their inverse; rows undone in the output buffer; samples of 1, 2 and
  4 bits expanded in place; the seven passes of section 2.6 put together; and images of pixels, packed, split and
  filtered, that come back.
- **GIF images** (`GifSpec`, `GifCanvas`, `GifLoader`, `GifDictionary`, `GifStandard`, `GifImage`, `Context`).
  Variable-width codes and strings of GIF89a, appendix F, row order of appendix E, and a class with the prefix-linked
  table and the pixel cursor. `GifDictionary` says what codes stand for without a table, and `GifImage` what a picture
  shows by the bytes of the file.
- **Object pool** (`PoolSpec`, `Pool`). Slots with a seven-bit generation and an emptiness bit in one byte, and handles
  made of both.
- **Send queue** (`SendQueue`, `SendHistory`). Worker threads and the main thread as a state machine; a handler may call
  back into the hooks, so the main thread has a stack of calls. It is a state machine rather than a class because other
  threads act between any two steps. `SendHistory` reads off the steps of a run what goes out, in which order, and why.
- **Text** (`Utf8Spec`, `Utf8`, `Utf8Repair`, `Cp1251Tables`, `Cp1251`, `InputText`). The UTF-8 check and repair, the
  CP1251 codec, and the cut of keyboard text at a character boundary.

Where the code and what is expected of it differ, the code is modelled and the difference is stated:

- `stbi__zhuffman_decode` refuses a code when fewer than 16 bits are buffered and no input is left. `Zlib.Decode` says
  exactly for which streams this happens; `RefusedStream` is one; a stream that ends 16 bits before the end of the input,
  as in front of a checksum, is never refused (`Zlib.EarlyEndIsDecoded`).
- A zlib header may announce a window of more than 32K, which RFC 1950, section 2.2, does not allow:
  `DeflateStream.HeaderAcceptedIff`. The Adler-32 checksum behind the data is never read. Dynamic blocks may count 287 or
  288 literal and length codes, where section 3.2.7 of RFC 1951 ends at 286, and codes that leave bit patterns unused
  are accepted; the last two symbols still stand for nothing.
- In a JPEG block a run may lead past coefficient 63, which then lands on the last place, and every symbol with size zero
  but F0 ends the block, where T.81, section F.1.2.2.1, has only 00 for that. The reference does the same.
- A JPEG block that a marker cuts off can fail by a fused entry where decoding the symbol and the value one after the
  other would read zeros: `JpegExact.ShortFused` says exactly when, `ShortFusedExists` shows a case.
- A JPEG table of 256 symbols whose last code has at most nine bits is accepted but decoded wrongly, because 255 also
  marks entries that are not accelerated. `JpegTable.LookupCorrectIff` gives this as the exact condition.
- `stbi__mul2shorts_valid` is wrong for most pairs of negative factors; `JpegSpec.ProductAcceptedIff` says for which.
- The GIF decoder keeps adding entries up to 8192 where the standard stops at 4096, and rejects a stream with more than
  8191 - 2^m ordinary codes in a row: `GifStandard.RasterIsStandard` is exact, `LongStreamIsRejected` a stream. Code size
  12, which the standard does not have, is taken with codes of 13 bits and a table of 8192. The test
  for the entry being made comes after the counter was advanced and never holds; the string is right all the same.
- Pixels of a GIF that no index is for get the background entry as it is stored, blue first, so with red and blue
  exchanged: `GifImage.BackgroundIsExchanged`.
- `utf8makevalid` accepts negative replacements; `Utf8Repair.AlwaysValidIff` says for which replacements the result is
  always valid. Surrogates and values above 0x10FFFF count as valid, as in the code.
- `utf8_to_cp1251` reads behind a text that is a single byte 0xE0 to 0xEF, because the length test wraps
  (`Cp1251.ReadsBeyondIff`).
- The pool's search starts behind the slot that was freed last, not at it; `Pick` in `PoolSpec` is the order in use.

`dafny verify dfyconfig.toml` checks everything.

## Model

| member | source | states |
|---|---|---|
| `BitReversal.BitReverseIsRev` | lib/stb_image.h:4105-4120 | the swap-by-masks reversal, shifted down, is the reversal of the low bits one by one, for every width up to 16 |
| `BitReversal.RevRev` | lib/stb_image.h:4105-4120 | reversing the bits of a code twice gives the code back |
| `BitReversal.RevIffLow` | lib/stb_image.h:4144-4165 | an index of the fast table ends in a reversed code exactly if the bit stream starts with that code |
| `Canonical.PrefixFree` | lib/stb_image.h:4122-4167 | of the codes assigned to a list of lengths, none is a prefix of another symbol's code |
| `Canonical.RankBelow` | lib/stb_image.h:4150-4165 | a symbol's code lies between the first code of its length and the limit, so the table slot computed from it is the symbol's own |
| `Canonical.HitUnique` | lib/stb_image.h:4221-4257 | at most one symbol's code starts a 16-bit window |
| `Canonical.HitAt` | lib/stb_image.h:4221-4238 | the first length at which the window is below the preshifted limit is the length of the code it starts with |
| `Canonical.NoHitUpTo` | lib/stb_image.h:4221-4238 | a window at or above the limit of a length starts with no code of that length or less |
| `Canonical.PreshiftedCompare` | lib/stb_image.h:4147-4156 | comparing the whole window with the preshifted limit is comparing the prefix with the limit |
| `Canonical.PosInjective` | lib/stb_image.h:4150-4158 | two symbols never share a slot of the size and value tables |
| `Canonical.KraftIsLimit` | lib/stb_image.h:4135-4150 | the running limit at a length is the Kraft sum up to that length |
| `Canonical.FitsIffKraft` | lib/stb_image.h:4135-4148 | the per-length overflow tests together accept exactly the lists whose Kraft sum is at most one |
| `Canonical.FirstCode` | lib/stb_image.h:4133-4150 | the code of the symbol that comes first, by length and then by number, is zero |
| `Canonical.NextCode` | lib/stb_image.h:4133-4150 | each next code is the one before plus one, with zeros behind it if it is longer: the two rules of RFC 1951, section 3.2.2, which leave no other codes |
| `ZHuffmanTable.ZHuffman.Build` | lib/stb_image.h:4122-4167 | accepts exactly the length lists that do not over-subscribe the code space; the tables are then sound and complete for that list: fast entries for exactly the indices that start with a short code, first codes, limits, slots and values by length |
| `ZHuffmanTable.ZHuffman.EnterSymbol` | lib/stb_image.h:4152-4165 | entering one symbol keeps slots, values and fast table exact for the symbols entered so far |
| `ZHuffmanTable.FastHitUnique` | lib/stb_image.h:4158-4164 | no fast index belongs to two symbols, so no fast entry is overwritten |
| `ZDecode.FastFound` | lib/stb_image.h:4245-4253 | a non-zero fast entry names the symbol whose canonical code starts the bit stream, and its length |
| `ZDecode.FastMiss` | lib/stb_image.h:4245-4257 | a zero fast entry means that no code of up to nine bits starts the stream |
| `ZDecode.SlowFound` | lib/stb_image.h:4221-4238 | the slow path computes the slot of the one symbol whose code starts the stream; the slot is below the number of symbols |
| `ZDecode.SlowMiss` | lib/stb_image.h:4226-4231 | when the scan reaches 16, no code starts the stream |
| `InflateSpec.MatchUnique` | lib/stb_image.h:4221-4257 | at most one symbol's code matches the bits at a position, so the reference symbol is well defined |
| `Zlib.ZBuf.FillBits` | lib/stb_image.h:4199-4209 | the reservoir still equals the bits between cursor and byte position of the zero-padded input, at least 25 of them, and the cursor has not moved; the branch that treats a too large buffer as end of input is dead |
| `Zlib.ZBuf.Receive` | lib/stb_image.h:4211-4219 | returns the next bits of the zero-padded input and moves the cursor by exactly their number |
| `Zlib.ZBuf.HuffmanDecode` | lib/stb_image.h:4240-4257 | returns the reference symbol and consumes exactly its code length; -1 exactly if no code matches, or fewer than 16 bits are buffered and no input is left; fetches as many bytes as the reference of fetching says |
| `Zlib.ZBuf.DecodeSlow` | lib/stb_image.h:4221-4238 | the same for the slow path; the guards on slot number and size never fire |
| `Zlib.ZBuf.Expand` | lib/stb_image.h:4259-4279 | growth keeps the written prefix and reaches the capacity that doubling reaches; it fails exactly if that capacity is not available |
| `Zlib.GrowAgain` | lib/stb_image.h:4268-4272 | doubling in several steps reaches the capacity that doubling once for the total would |
| `Zlib.GrowDoubles` | lib/stb_image.h:4268-4271 | the capacity reached is the initial one doubled so often that it is enough, and not once more |
| `Zlib.ZBuf.CopyBytes` | lib/stb_image.h:4323-4331 | the run for distance one and the byte loop both give the overlapping copy of RFC 1951, section 3.2.3 |
| `Zlib.ZBuf.TokenStep` | lib/stb_image.h:4295-4336 | one turn of the loop is one step of the reference and of the fetching; it fails only where one of them fails or the room does |
| `Zlib.ZBuf.ParseHuffmanBlock` | lib/stb_image.h:4295-4336 | a compressed block succeeds exactly if the reference accepts it, no code is refused and the output has room; it gives the reference's output and end position |
| `Zlib.ZBuf.ReadLengths` | lib/stb_image.h:4355-4379 | the run-length coded lengths read are the reference's; it fails only if the reference fails or a code is refused |
| `Zlib.ZBuf.ComputeHuffmanCodes` | lib/stb_image.h:4338-4386 | a dynamic header builds the two tables that the reference reads from it, and fails only if the reference fails or a code is refused |
| `Zlib.ZBuf.Drain` | lib/stb_image.h:4396-4402 | at most three bytes are drained from an aligned reservoir and they are the next bytes of the input |
| `Zlib.ZBuf.ParseUncompressedBlock` | lib/stb_image.h:4388-4415 | a stored block succeeds exactly if the reference accepts it and the output has room; no payload byte is lost in the reservoir |
| `Zlib.ZBuf.ParseZlibHeader` | lib/stb_image.h:4417-4429 | accepts exactly two-byte headers, with something behind them, that say deflate and no preset dictionary and whose check holds; it then stands behind the header |
| `Zlib.ZBuf.ParseBlocks` | lib/stb_image.h:4460-4486 | the block loop succeeds exactly if the reference accepts the zero-padded input, no code is refused at its end and the output has room; output and end position are the reference's |
| `Zlib.ZBuf.ParseZlib` | lib/stb_image.h:4460-4486 | the same for a whole stream with or without header |
| `Zlib.Decode` | lib/stb_image.h:4460-4486 | for every input and buffer: there is a result exactly if the reference has one, no code is refused at the end of the input, and doubling reaches room for it; it is the reference's output |
| `Zlib.EarlyEndIsDecoded` | lib/stb_image.h:4240-4257 | a stream that ends at least 16 bits before the end of the input is never refused |
| `Fetching.RefusalIsLate` | lib/stb_image.h:4243-4246 | a code is refused only in the last 16 bits of the input or behind it |
| `Fetching.EarlyEndIsNotRefused` | lib/stb_image.h:4240-4257 | no code of a stream that ends 16 bits early is refused, whatever was fetched before |
| `RefusedStream.StreamIsRefused` | lib/stb_image.h:4243-4246 | a valid stream of 26 bits in four bytes that the format accepts and the decoder refuses at its last code |
| `InflateCases.FixedAreSubscribed` | lib/stb_image.h:4431-4458 | both fixed length lists are accepted by the table builder |
| `DeflateStream.FixedCodes` | lib/stb_image.h:4431-4458 | the codes of the fixed literal and length alphabet are those that RFC 1951, section 3.2.6, lists |
| `DeflateStream.FixedDistanceCodes` | lib/stb_image.h:4431-4458 | the codes of the fixed distance alphabet are its numbers in five bits |
| `DeflateValues.TablesAreStandard` | lib/stb_image.h:4281-4293 | the four tables hold what the rule of RFC 1951, section 3.2.5, gives: one more extra bit for every four length symbols and every two distance symbols, and 258 for the last length symbol |
| `DeflateValues.EveryLengthOnce` | lib/stb_image.h:4281-4287 | every length from 3 to 258 is what exactly one symbol with extra bits stands for, 258 the last symbol without any; the decoder also takes symbol 284 with all extra bits set for 258 |
| `DeflateValues.EveryDistanceOnce` | lib/stb_image.h:4289-4293 | every distance from 1 to 32768 is what exactly one symbol with extra bits stands for |
| `DeflateValues.InRange` | lib/stb_image.h:4281-4293 | no symbol stands for anything else |
| `DeflateValues.CopyIsRepeated` | lib/stb_image.h:4323-4331 | copying byte by byte, also from what has just been written, repeats the last bytes of the output |
| `DeflateEncoding.BlockDecodes` | lib/stb_image.h:4295-4336 | literals and matches written as RFC 1951 writes them, followed by the end code, decode to their meaning, said by length and distance without tables, and end right behind it |
| `DeflateEncoding.DecodedIsWritten` | lib/stb_image.h:4295-4336 | conversely, everything the symbol loop accepts is the written form of some literals and copies with that meaning |
| `DeflateEncoding.TokenDecodes` | lib/stb_image.h:4300-4331 | one written literal or copy decodes to its meaning |
| `DeflateEncoding.PiecesDecode` | lib/stb_image.h:4295-4336 | any data in bytes and matches of 3 to 258 bytes from 1 to 32768 bytes back can be written, and decoding gives the data |
| `DeflateStream.RunsDecode` | lib/stb_image.h:4355-4379 | written runs of code lengths decode to the lengths they spell |
| `DeflateStream.LengthsAreWritten` | lib/stb_image.h:4355-4379 | every accepted list of code lengths is the written form of some runs |
| `DeflateStream.DezigzagIsPermutation` | lib/stb_image.h:4340-4353 | the order of the code length code lists each of the 19 symbols once |
| `DeflateStream.OrderIsTable` | lib/stb_image.h:4340-4340 | the table of that order: the three run symbols, 0, and the lengths from 8 up and from 7 down in turn |
| `DeflateStream.HeaderDecodes` | lib/stb_image.h:4338-4386 | a written dynamic header decodes to its two length lists |
| `DeflateStream.HeaderIsWritten` | lib/stb_image.h:4338-4386 | every accepted dynamic header is a written one |
| `DeflateStream.TextDecodes` | lib/stb_image.h:4388-4486 | a written block of any of the three kinds decodes to its meaning and ends where it was written to end |
| `DeflateStream.BlockIsWritten` | lib/stb_image.h:4388-4486 | every accepted block is a written one |
| `DeflateStream.StreamDecodes` | lib/stb_image.h:4460-4486 | a written sequence of blocks, the last marked final, decodes to its meaning |
| `DeflateStream.InflatedIsWritten` | lib/stb_image.h:4460-4486 | the reference accepts nothing but written sequences of blocks, with their meaning |
| `DeflateStream.HeaderAcceptedIff` | lib/stb_image.h:4417-4429 | the headers accepted are those that RFC 1950, section 2.2, allows, and those with nothing wrong but a window size above 32K |
| `DeflateStream.LargeWindowIsAccepted` | lib/stb_image.h:4417-4429 | such a header: 88 1C, for a window of 64K |
| `JpegTable.SortedPosition` | lib/stb_image.h:2001-2020 | symbols listed by length are numbered in code order: the symbol id is the position in the list |
| `JpegHuffman.JHuffman.Build` | lib/stb_image.h:2001-2044 | accepts exactly the counts of at most 256 symbols whose Kraft sum is at most one; sizes, codes, limits, deltas and fast table are then those of the canonical code |
| `JpegHuffman.JHuffman.AssignCodes` | lib/stb_image.h:2014-2030 | fails exactly if some length has more codes than fit; otherwise codes, preshifted limits and deltas are the canonical ones |
| `JpegHuffman.JHuffman.EnterFast` | lib/stb_image.h:2033-2042 | exactly the indices that start with the symbol's short code are set to it |
| `JpegHuffman.ShortHitUnique` | lib/stb_image.h:2033-2042 | no index starts with the short codes of two symbols, so no fast entry is overwritten |
| `JpegHuffman.FastAnswers` | lib/stb_image.h:2031-2042 | the finished fast table gives, for every 16-bit window, the number of the symbol with a short code or 255 |
| `JpegTable.SlowIsCanonical` | lib/stb_image.h:2118-2137 | the preshifted scan and the delta give canonical decoding for every window the fast table passes on; the scan stops at 17 exactly if no code matches |
| `JpegTable.ScanFindsItsCode` | lib/stb_image.h:2134-2138 | the slot computed by the scan holds a symbol of that length whose code starts the window: the assertion before the code is consumed always holds |
| `JpegTable.LookupIsCanonical` | lib/stb_image.h:2095-2144 | fast lookup plus scan is canonical decoding of T.81, F.2.2.3, for every window of a table that is not ambiguous |
| `JpegTable.LookupCorrectIff` | lib/stb_image.h:2031-2042 | looking up is right for all windows exactly if the table does not have 256 symbols with the last code in the fast range |
| `JpegTable.AmbiguousIsWrong` | lib/stb_image.h:2031-2042 | in such a table every window that starts with the last code is decoded wrongly, since 255 also means not accelerated |
| `JpegTable.AmbiguousExists` | lib/stb_image.h:2001-2042 | counts of such a table, each in one byte, that pass the tests of the builder: one code of eight bits and 255 of nine |
| `JpegFastAc.FusedIsDecodeThenExtend` | lib/stb_image.h:2048-2071 | where the fused table has an entry, its run, signed value and length are those of decoding a symbol and then receiving and extending its value |
| `JpegFastAc.FusedUnless` | lib/stb_image.h:2048-2071 | the fused table has an entry exactly if the code is known to the fast table, has value bits, fits nine bits with them, and the value fits a signed byte |
| `JpegFastAc.BuildFastAc` | lib/stb_image.h:2048-2071 | every entry of the table is the fused entry for its nine bits |
| `BitRegister.RegisterWindow` | lib/stb_image.h:2103-2130 | shifting the register right gives the next bits of the data if they are buffered or the data has ended |
| `BitRegister.RegisterDrop` | lib/stb_image.h:2111-2112 | shifting the register left leaves the bits behind the ones dropped |
| `BitRegister.RegisterAppend` | lib/stb_image.h:2086-2087 | entering a byte below the buffered bits keeps the register equal to the data |
| `JpegDecoder.Jpeg.NextByte` | lib/stb_image.h:2073-2085 | the next entropy-coded byte with stuffing removed, zero past the end, nothing at a marker; fill bytes in front of markers are skipped |
| `JpegDecoder.Jpeg.GrowBuffer` | lib/stb_image.h:2073-2089 | the register still equals the unread data at the same cursor; it holds 25 bits or more, except when the marker is met just then; the bytes loaded are exactly those that the position and the marker determine |
| `JpegSupply.AskedIs` | lib/stb_image.h:2073-2089 | asking for bits gives them unless it meets the marker, and asking a second time gives them in any case; nothing loaded is lost |
| `JpegDecoder.Jpeg.Reset` | lib/stb_image.h:2934-2945 | the register is empty at the start of the entropy-coded bytes behind the current position; predictions, end-of-band run and restart count start over |
| `JpegDecoder.Jpeg.HuffDecode` | lib/stb_image.h:2095-2144 | gives the symbol that looking up the next 16 bits gives, consuming exactly its length; an error exactly if there is none or too few bits for its code once the register has been filled; says exactly what is loaded, which is nothing if 16 bits are buffered |
| `JpegDecoder.Jpeg.ScanCodes` | lib/stb_image.h:2118-2128 | finds the first length whose preshifted limit exceeds the window, or 17 |
| `JpegDecoder.Jpeg.ExtendReceive` | lib/stb_image.h:2151-2164 | receives and extends a value of T.81, F.2.2.1, from the data at the cursor; zero, and nothing consumed, exactly if there are too few bits once the register has been filled; says exactly what is loaded |
| `JpegExact.FusedTurn` | lib/stb_image.h:2230-2242 | a turn by a fused entry is one turn of the reference |
| `JpegBlock.DecodeThenExtend` | lib/stb_image.h:2048-2071 | for every lookahead with 16 bits buffered and a fused entry: decoding a symbol and then receiving and extending its value, by the two functions themselves, gives the run and the value of the entry and leaves register, bit count and position as dropping the length of the entry does |
| `JpegExact.FusedIsUnfused` | lib/stb_image.h:2228-2259 | with 16 bits buffered the turn by a fused entry and the turn by its symbol and value leave the same state |
| `JpegExact.ShortFused` | lib/stb_image.h:2228-2259 | with fewer, the fused turn fails exactly if bits of the code or the value are missing, where the other would go on; if it does not fail, coefficient and position are the same |
| `JpegExact.ShortFusedExists` | lib/stb_image.h:2228-2259 | a state in front of a marker in which the fused turn fails and the other does not |
| `JpegExact.BlockRefines` | lib/stb_image.h:2208-2261 | whatever was loaded before: where the reference decodes a block the outcome is that, and where it finds bad data an error, for the data alone or with zeros behind it where zeros are read |
| `JpegExact.CutBlockReadsZeros` | lib/stb_image.h:2073-2089 | where no marker follows, or it has been met, a block that the end cuts off is decoded exactly as if zeros followed without end |
| `JpegBlock.AcStep` | lib/stb_image.h:2228-2259 | every turn of the loop, fused or not, is exactly a turn of the reference of outcomes, in coefficients, position and what is loaded, also where the data ends |
| `JpegBlock.DecodeAc` | lib/stb_image.h:2226-2260 | the loop over the AC coefficients gives exactly the outcome of the reference, also where the data ends |
| `JpegBlock.AddIntsValid` | lib/stb_image.h:1068-1073 | says exactly whether the sum is an int |
| `JpegBlock.DecodeBlock` | lib/stb_image.h:2208-2261 | for all data, also data that ends inside the block, the outcome is the one that bytes, position and what was loaded determine; a block written at the position gives exactly its 64 entries, each value at its place times its quantiser, its prediction and its end, and bad data fails; as tables are looked up and, if they are not ambiguous, canonically; other predictions do not change |
| `JpegSpec.BlockIsCanonical` | lib/stb_image.h:2095-2144 | a block means the same as looked up and canonically, if no table is ambiguous |
| `JpegSpec.ProductAcceptedIff` | lib/stb_image.h:1076-1082 | the product test decides exactly whether a product fits unless both factors are negative, and for two negative factors exactly when it is right |
| `JpegSpec.ProductTestIsWrong` | lib/stb_image.h:1076-1082 | a product that fits and is rejected, and one that does not fit and is accepted |
| `JpegEncoding.UnstuffedStuffed` | lib/stb_image.h:2073-2089 | removing what byte stuffing put in gives the bytes back, up to a marker or the end, and says which of them it is |
| `JpegEncoding.ExtendIsInverse` | lib/stb_image.h:2146-2164 | extending the bits written for a value gives the value, and every bit pattern is that of one value |
| `JpegEncoding.AcDecodes` | lib/stb_image.h:2226-2260 | coefficients written as runs, sizes and values decode to themselves and end right behind what was written |
| `JpegEncoding.AcIsWritten` | lib/stb_image.h:2226-2260 | conversely, everything the reference accepts is the written form of some coefficients |
| `JpegEncoding.DifferenceDecodes` | lib/stb_image.h:2213-2220 | a written DC difference decodes to itself |
| `JpegEncoding.DifferenceIsWritten` | lib/stb_image.h:2213-2220 | every accepted DC difference is a written one |
| `JpegEncoding.BlockDecodes` | lib/stb_image.h:2208-2261 | a written block decodes to 64 entries and ends right behind it: each entry is the last value written for its place in the zigzag order times the quantiser of that place, cut to 16 bits, zero if there is none, and the first entry is the prediction plus the difference times its own |
| `JpegEncoding.FirstIsAlone` | lib/stb_image.h:2225-2260 | no value behind the difference lands on the first entry |
| `JpegEncoding.BlockIsWritten` | lib/stb_image.h:2208-2261 | every accepted block is a written one |
| `JpegEncoding.StuffedBlockDecodes` | lib/stb_image.h:2073-2261 | between what comes before it and a marker, a stuffed scan is decoded to the block written into it, and nothing else is accepted |
| `JpegSpec.PlacesAreZigzag` | lib/stb_image.h:2190-2206 | the place table is the walk along the diagonals |
| `JpegSpec.PlacesAtEnds` | lib/stb_image.h:2190-2206 | beyond the last coefficient every place is the last one |
| `PngFilters.PaethIsClosest` | lib/stb_image.h:4636-4645 | the Paeth predictor is a closest neighbour, with ties going to the left one, then to the one above |
| `PngFilters.ReconOfFiltered` | lib/stb_image.h:4627-4645 | undoing a filter of RFC 2083, section 6, restores the row, for every filter, pixel size and row above |
| `PngFilters.FilteredOfRecon` | lib/stb_image.h:4627-4645 | every row of bytes is the filtered form of exactly one row |
| `PngFilters.ReconObeys` | lib/stb_image.h:4627-4645 | by filter number: a reconstructed byte is the filtered one plus nothing, the left byte, the one above, half of their sum rounded down, or the nearest of the three neighbours, modulo 256 |
| `PngFilters.FirstRowSubstitutes` | lib/stb_image.h:4615-4634 | the filters substituted in the first row act like the original ones below a row of zeros |
| `PngFilters.FirstPixel` | lib/stb_image.h:4695-4706 | the explicit cases for the first pixel are the general filters with nothing on the left |
| `PngFilters.ReconOfEncoded` | lib/stb_image.h:4676-4772 | an image filtered row by row, by any choice of filters and whatever follows the data, gives every row back |
| `PngRows.UnfilterPacked` | lib/stb_image.h:4700-4745 | a row is reconstructed in place of the output, from itself and the row above, and nothing else changes |
| `PngRows.UnfilterSpread` | lib/stb_image.h:4700-4772 | the same with room left for alpha: the channels of every pixel are the reference's, every alpha byte is 255 |
| `PngExpand.WriteBehindRead` | lib/stb_image.h:4777-4827 | expanding from the left end never writes over a packed byte that is still needed; write and read meet only at the last sample of a byte or row |
| `PngExpand.ExpandRow` | lib/stb_image.h:4777-4827 | in-place expansion of 1, 2 and 4 bit samples gives the samples of the packed bytes as they were, although both share the row |
| `PngExpand.SampleOfByte` | lib/stb_image.h:4792-4825 | shifting and masking gives the sample's bits in the bit string of the row, high bits first |
| `PngExpand.ScaledFits` | lib/stb_image.h:4647-4648 | scaled gray samples are bytes and span exactly 0 to 255 |
| `PngExpand.InsertAlpha` | lib/stb_image.h:4828-4845 | inserting alpha from the right end in the same row keeps every channel and sets every alpha to 255 |
| `PngImage.UnfilterRows` | lib/stb_image.h:4676-4772 | fails exactly if a filter type does not exist or packed rows do not fit; otherwise every row is the reference's |
| `PngBytes.ToNative` | lib/stb_image.h:4846-4857 | every 16-bit sample is rewritten from the order of the file to that of the machine, in place |
| `PngImage.CreateImageRaw` | lib/stb_image.h:4650-4860 | for every data, size, depth and machine: fails exactly if a size is too large, memory or data is missing, a filter type does not exist or packed rows do not fit; otherwise every row holds the reference's samples with opaque alpha, and every byte obeys the filter of its row as RFC 2083, section 6, states it |
| `PngImage.EncodedIsDecodable` | lib/stb_image.h:4650-4772 | what was filtered is accepted, and every row comes back |
| `PngImage.RowsObey` | lib/stb_image.h:4676-4772 | every byte of every reconstructed row obeys the filter type of its row, with zeros beside the image |
| `PngImage.PixelsObey` | lib/stb_image.h:4676-4772 | where samples are whole bytes, the output itself obeys the filters, channel by channel |
| `PngImage.SizesValidIff` | lib/stb_image.h:1012-1033 | the tests by division accept exactly the products that fit an int with the rest added |
| `PngImage.LengthIsExact` | lib/stb_image.h:4663-4674 | for all sizes accepted, the length asked for is not rounded by 32-bit arithmetic |
| `PngPasses.PassSizeIs` | lib/stb_image.h:4874-4883 | the unsigned expression for the size of a pass is right although it can wrap below zero |
| `PngPasses.PassPattern` | lib/stb_image.h:4874-4879 | the passes of the pixels follow the 8 by 8 pattern of RFC 2083, section 2.6 |
| `PngPasses.EveryPixelInOnePass` | lib/stb_image.h:4874-4901 | every pixel is one pixel of exactly one pass |
| `PngPasses.PixelOfPass` | lib/stb_image.h:4888-4897 | every pixel of a pass lands inside the image, on a pixel that is this pass's |
| `PngPasses.PassesAddUp` | lib/stb_image.h:4874-4901 | the pixels of the seven passes add up to width times height |
| `PngInterlace.CopyPass` | lib/stb_image.h:4888-4897 | after a pass, all pixels of the passes so far hold their final bytes |
| `PngInterlace.CreateImage` | lib/stb_image.h:4862-4905 | an interlaced image fails exactly if it or some pass does; otherwise every pixel is that of its pass |
| `PngInterlace.InterlacedRoundTrip` | lib/stb_image.h:4862-4905 | seven filtered passes behind each other are accepted, and each is decoded to its own rows |
| `PngPixels.PackedSample` | lib/stb_image.h:4777-4827 | a sample packed into the bits of a row is read back, for every depth |
| `PngPixels.ContentShows` | lib/stb_image.h:4777-4860 | the decoded bytes of a packed row are its pixels: gray levels scaled, 16 bits as two bytes |
| `PngPixels.InterlacedImageComesBack` | lib/stb_image.h:4862-4905 | an image of pixels, split into seven passes, packed, filtered in any way and joined, has all that the decoder asks of the data, and the decoder shows every pixel of the image |
| `PngPixels.ImageComesBack` | lib/stb_image.h:4650-4860 | the same for an image that is not interlaced |
| `GifSpec.RowOrderIsPermutation` | lib/stb_image.h:6846-6878 | the interlaced order visits every row once |
| `GifSpec.RowOrderAt` | lib/stb_image.h:6871-6879 | the row that comes i-th, by numbers: every eighth from 0, every eighth from 4, every fourth from 2, every second from 1 |
| `GifSpec.SubBlocksAreRead` | lib/stb_image.h:6704-6772 | data cut into parts and written as sub-blocks is read back |
| `GifDictionary.CodeIsDecoded` | lib/stb_image.h:6743-6767 | a code is decoded exactly to what it stands for by the strings sent since the clear code: a colour, or the j-th string and the first byte of the next; it is refused exactly if it stands for none or the table is full |
| `GifDictionary.WidthsAreRight` | lib/stb_image.h:6761-6764 | a code has as few bits as the entries made so far need |
| `GifDictionary.RasterIsRead` | lib/stb_image.h:6690-6773 | codes written with these widths, in segments behind clear codes, are decoded to the strings they stand for |
| `GifCanvas.RowOrderRows` | lib/stb_image.h:6846-6878 | the row order has as many rows as the frame, all different and all inside |
| `GifCanvas.EveryPixelOnce` | lib/stb_image.h:6663-6687 | the first width times height indices hit every pixel of the rectangle exactly once |
| `GifCanvas.Painted` | lib/stb_image.h:6663-6687 | an index that hits a pixel shows the entry of the table in memory unless transparent, and no later index paints over it |
| `GifCanvas.Untouched` | lib/stb_image.h:6663-6687 | a pixel that no index hits keeps its bytes |
| `GifCanvas.Flagged` | lib/stb_image.h:6666-6669 | a pixel is flagged exactly if an index hits it |
| `GifImage.ParseColorTable` | lib/stb_image.h:6596-6604 | every entry holds the three bytes of the file back to front, and is transparent exactly if it is the transparent index |
| `GifImage.SetTransparent` | lib/stb_image.h:6913-6931 | a graphic control extension moves the transparent index of the global table and changes nothing else in it |
| `GifImage.PaintedShows` | lib/stb_image.h:6653-6687 | painting a frame, by the file: the pixel of the k-th index shows red, green and blue of its entry with alpha 255, keeps its bytes exactly if the index is the transparent one, and no other pixel changes |
| `GifImage.LoadFrame` | lib/stb_image.h:6844-6890 | an image descriptor, its colour table and its raster give the picture that the file says; fails exactly if the rectangle leaves the image, there is no colour table or the codes are refused |
| `GifImage.LoadImage` | lib/stb_image.h:6844-6904 | the same for the first image of a file with the background filled in |
| `GifImage.FillBackground` | lib/stb_image.h:6892-6902 | exactly the pixels that no index was for get the entry of the global table as it is stored |
| `GifImage.BackgroundIsExchanged` | lib/stb_image.h:6892-6902 | the background colour is that of the file with red and blue exchanged |
| `GifLoader.Gif.SetFrame` | lib/stb_image.h:6846-6878 | accepts exactly the rectangles inside the image and places the cursor at the start of their row order |
| `GifLoader.Gif.PutPixel` | lib/stb_image.h:6663-6687 | paints one index at the reference's cursor and moves it, through all interlace passes; indices after the last pixel are ignored |
| `GifLoader.Gif.OutCode` | lib/stb_image.h:6653-6688 | paints the whole string of a code, first byte first; prefixes are smaller than their entry, so the recursion ends |
| `GifLoader.TableGrows` | lib/stb_image.h:6748-6757 | entering a code keeps the linked table equal to the reference's table of strings |
| `GifLoader.Gif.OrdinaryCode` | lib/stb_image.h:6743-6767 | an ordinary code does to table, width and picture what the reference does, also when it names the entry being made |
| `GifLoader.Gif.TakeCode` | lib/stb_image.h:6728-6770 | every code, clear and end included, is one step of the reference |
| `GifLoader.Gif.ProcessRaster` | lib/stb_image.h:6690-6773 | succeeds exactly if the reference accepts the code stream, and has then painted the reference's indices |
| `GifStandard.StepRelated` | lib/stb_image.h:6743-6767 | one code keeps the decoder's table and the standard's full table, of 4096 entries or all that 13 bits name for code size 12, in step |
| `GifStandard.StepCounts` | lib/stb_image.h:6743-6767 | the size of the table follows from the number of codes since the last clear code, and a code is rejected for a full table exactly when there are too many |
| `GifStandard.IndicesAreStandard` | lib/stb_image.h:6690-6773 | the decoder accepts exactly the streams that the standard accepts and that do not have more than 8191 - 2^m ordinary codes in a row, and emits the same |
| `GifStandard.RasterIsStandard` | lib/stb_image.h:6690-6773 | the same for a whole raster from its start |
| `GifStandard.LongStreamIsRejected` | lib/stb_image.h:6748-6751 | a stream of one colour that the standard accepts and the decoder rejects |
| `Contexts.Context.Get8` | lib/stb_image.h:1612-1621 | the bytes of the memory in order, zero past the end |
| `PoolSpec.NewIsExact` | cpp/game/CPool.h:136-152 | New fails exactly if the pool is full; otherwise the live slots grow by one slot that was not live |
| `PoolSpec.DeleteIsExact` | cpp/game/CPool.h:174-180 | exactly the deleted slot stops being live |
| `PoolSpec.NewAfterDelete` | cpp/game/CPool.h:136-180 | the slot that New gives after Delete: the first free one behind the released slot, or behind the last one given if that is lower, or else from the start |
| `PoolSpec.SecondReleasedComesFirst` | cpp/game/CPool.h:136-180 | with slots 0 to 5 of eight in use, releasing 2 and then 3 makes New give 3 |
| `PoolSpec.ClearIsExact` | cpp/game/CPool.h:93-97 | no slot is live after clearing |
| `PoolSpec.GenerationCounts` | cpp/game/CPool.h:136-152 | the seven-bit generation of a slot counts its allocations modulo 128, over every run |
| `PoolSpec.HandleResolvesIff` | cpp/game/CPool.h:183-193 | after any run a handle resolves exactly if the slot is as live as when it was taken and was allocated a multiple of 128 times since; never to another slot |
| `PoolSpec.KeptSlotStays` | cpp/game/CPool.h:136-192 | a live slot that nothing releases is not handed out again and its handle stays good |
| `Pool.CPool.Init` | cpp/game/CPool.h:64-77 | all slots are empty with generation zero |
| `Pool.CPool.New` | cpp/game/CPool.h:136-152 | takes the next empty slot round the pool, looking at no more than two sweeps of slots |
| `Pool.CPool.Delete` | cpp/game/CPool.h:174-180 | frees the slot and moves the search start back to it |
| `Pool.CPool.Clear` | cpp/game/CPool.h:93-97 | frees every slot and keeps generations and search start |
| `Pool.CPool.GetRef` | cpp/game/CPool.h:183-186 | the handle given resolves to the slot it was asked for |
| `Pool.CPool.GetAtRef` | cpp/game/CPool.h:189-193 | finds a slot exactly by the handle that the slot has now |
| `PoolSpec.RefResolves` | cpp/game/CPool.h:183-193 | a handle resolves to a slot exactly if it is that slot's handle |
| `Pool.CPool.GetNoOfUsedSpaces` | cpp/game/CPool.h:196-204 | counts the live slots |
| `Pool.CPool.GetNoOfFreeSpaces` | cpp/game/CPool.h:206-209 | counts the other slots: none exactly when nothing can be allocated |
| `SendQueue.StepKeepsInv` | cpp/game/rakhook.cpp:194-271 | every step of every thread keeps the invariant of mutex, queue, call stack and history |
| `SendQueue.PresentedOnceInOrder` | cpp/game/rakhook.cpp:515-534 | in every interleaving the queued messages presented are the first ones queued, in order and once each; outside a drain, all but those still queued |
| `SendQueue.QueuedBeforeSendIsPresented` | cpp/game/rakhook.cpp:212-214 | in every run, when a main-thread send outside a drain is about to be presented or to go out, the mutex was taken for this call earlier, and everything queued by then has been presented |
| `SendQueue.MarkGoesBack` | cpp/game/rakhook.cpp:515-523 | a call that waits for the drain goes back to the step of the run that took the mutex for it |
| `SendQueue.MarkOfStep` | cpp/game/rakhook.cpp:515-534 | only the step that takes the mutex changes what a waiting call waits for |
| `SendQueue.QueueFixedDuringDrain` | cpp/game/rakhook.cpp:523-533 | no step of any thread changes the queue while it is walked through |
| `SendQueue.NeverDrainsTwice` | cpp/game/rakhook.cpp:515-533 | sends nested in a drain never start another one or ask for the held mutex |
| `SendQueue.NoDeadlock` | cpp/game/rakhook.cpp:194-271 | the main thread in a call can go on, or a worker that holds the mutex can |
| `SendHistory.SentIsLetThrough` | cpp/game/rakhook.cpp:194-284 | in every run the messages handed to the network are exactly those let through, in that order and once each: empty packets, raw sends that come back from process, and what handlers give back without a veto |
| `SendHistory.EnqueuedIsPushed` | cpp/game/rakhook.cpp:198-211 | what is queued is exactly what the workers that held the mutex had taken up, in that order |
| `SendHistory.WorkerRunsItsCourse` | cpp/game/rakhook.cpp:198-211 | a worker keeps the message it was given until it queues it |
| `SendHistory.CallRunsItsCourse` | cpp/game/rakhook.cpp:212-240 | a call of the hook stays on the stack until handlers have decided on it; then its message or the replacement goes out, or nothing does |
| `SendHistory.DecidedIsPresented` | cpp/game/rakhook.cpp:216-225 | before handlers decide on a call, its message is presented to them |
| `SendHistory.RawRunsItsCourse` | cpp/game/rakhook.cpp:561-578 | a raw send stays on the stack until it goes out |
| `SendHistory.VetoedNeverGoesOut` | cpp/game/rakhook.cpp:223-226 | a message that is not sent raw, not empty and not given back by handlers never goes out |
| `SendHistory.DecidedInOrder` | cpp/game/rakhook.cpp:515-534 | handlers decide on queued messages in the order of the queue, once each, and on each before the drain turns to the next |
| `SendHistory.OutsAreSent` | cpp/game/rakhook.cpp:515-534 | what handlers let through of the queue goes out in the order of the queue |
| `SendHistory.QueuedIsDecidedBefore` | cpp/game/rakhook.cpp:212-214 | when a message of the main thread is about to be presented or to go out outside a drain, handlers have decided on everything queued when the mutex was taken for it, and what they let through has gone out |
| `SendHistory.RawGoesOutBehind` | cpp/game/rakhook.cpp:561-578 | a raw send outside a drain goes out behind all of that |
| `Utf8Spec.WellFormedIff` | lib/utf8.h:1014-1111 | well-formed text is exactly what is written for some code points from 1 to 0x1FFFFF |
| `Utf8Spec.DecodeEncoded` | lib/utf8.h:1178-1202 | reading what was written for code points gives them back |
| `Utf8Spec.EncodeDecoded` | lib/utf8.h:1232-1274 | writing the code points read from well-formed text gives the text back |
| `Utf8Spec.EncodeKeepsOrder` | lib/utf8.h:1232-1274 | texts are ordered byte by byte as their code points are; with the lengths this determines every byte |
| `Utf8Spec.WellFormedConcat` | lib/utf8.h:1014-1111 | behind well-formed text, the whole is well-formed exactly if the rest is |
| `Utf8.LeadingBits` | lib/utf8.h:1043-1098 | the tests for unused leading bits reject exactly the forms that are not the shortest |
| `Utf8.CheckCharacter` | lib/utf8.h:1021-1107 | the tests of one character decide, reading no memory behind the string, whether the text can still be well-formed |
| `Utf8.NValid` | lib/utf8.h:1014-1111 | null exactly if the bytes before the first NUL, at most n, are well-formed; otherwise the position of the first character that is not |
| `Utf8.Codepoint` | lib/utf8.h:1178-1202 | the number and length of the first character, and what is read where none stands |
| `Utf8.Codepoints` | lib/utf8.h:1178-1202 | repeated reading recovers the sequence of code points |
| `Utf8.CodepointSize` | lib/utf8.h:1220-1230 | the number of bytes that are written for a number |
| `Utf8.CatCodepoint` | lib/utf8.h:1232-1274 | writes the form of a number, or nothing if it needs more room |
| `Utf8Repair.MakeValid` | lib/utf8.h:1113-1176 | the string is replaced in place by its repaired form; writing never overtakes reading, and nothing behind the old terminator changes |
| `Utf8Repair.RewrittenFits` | lib/utf8.h:1133-1164 | a character is never longer when written again |
| `Utf8Repair.RepairedIsValid` | lib/utf8.h:1113-1176 | with an ASCII replacement the result, up to its first NUL, is well-formed for every string |
| `Utf8Repair.AlwaysValidIff` | lib/utf8.h:1116-1122 | of the accepted replacements, exactly those with an ASCII low byte make every string valid |
| `Utf8Repair.ValidIsKept` | lib/utf8.h:1113-1176 | well-formed text is not changed |
| `Utf8Repair.FirstFaultIsRepaired` | lib/utf8.h:1124-1170 | behind well-formed text, one byte that starts no complete character is replaced and nothing else on its account; a form that is too long is written again |
| `Utf8Repair.RepairedTwice` | lib/utf8.h:1113-1176 | repairing again changes nothing |
| `Cp1251Tables.TablesAreInverse` | lib/encoding.h:10-79 | the decoding map is the inverse of the encoding table, entry by entry |
| `Cp1251Tables.TableShape` | lib/encoding.h:10-27 | every table entry is a complete character of two or three bytes |
| `Cp1251Tables.TableIsCodePoints` | lib/encoding.h:10-27 | the table holds the UTF-8 forms of the Unicode code points of CP1251 |
| `Cp1251.CharIsCodePoint` | lib/encoding.h:29-51 | every byte but 0x98 is converted to its code point in UTF-8; the letters from 0xC0 on are U+0410 to U+044F in order |
| `Cp1251.TextIsReadByCodePoints` | lib/encoding.h:84-150 | well-formed text is converted code point by code point: ASCII to itself, a character of CP1251 to its byte, everything else to a question mark |
| `Cp1251.Cp1251ToUtf8` | lib/encoding.h:29-51 | the concatenation of the characters of the bytes |
| `Cp1251.Utf8ToCp1251` | lib/encoding.h:84-150 | the reference reading of the text; for the texts on which memory behind is read, that of the three bytes read |
| `Cp1251.ReadsBeyondIff` | lib/encoding.h:91-147 | memory behind the text is read exactly for single bytes 0xE0 to 0xEF, by the three-byte branch |
| `Cp1251.BehindMatters` | lib/encoding.h:111-132 | two such texts, and that the result depends on what is behind |
| `Cp1251.RoundTrip` | lib/encoding.h:8-150 | converting to UTF-8 and back drops the bytes 0x98 and nothing else |
| `Cp1251.TextIsWellFormed` | lib/encoding.h:8-52 | the converted text is well-formed UTF-8 exactly if the string has no NUL |
| `Cp1251.NeverReadsBeyond` | lib/encoding.h:111-120 | what was converted to UTF-8 is never a text on which memory behind it is read |
| `InputText.CutSize` | cpp/gui/input_system.cpp:92-124 | of valid text the size kept is the largest that fits and is valid; for all text and capacities it is negative exactly if no first byte of a character fits |
| `InputText.LeadIsBoundary` | cpp/gui/input_system.cpp:100-103 | in valid text every byte that is not a continuation byte starts a character |
| `InputText.StoreText` | cpp/gui/input_system.cpp:85-138 | text that fits is stored whole, other text is cut, valid text at the last character boundary, with a terminator, in a buffer of its capacity; there is nothing to store exactly if no first byte of a character fits |

## Left out

- Zlib.Decode: allocation is a limit on the size of one block, given by the caller; for an expandable buffer of zero bytes, where the code doubles zero without end, the model has no result.
- InflateSpec.Inflate: outputs are below 2^32 bytes, the largest that the decoder can hold.
- JpegBlock.DecodeBlock: says nothing about coefficients and prediction after an error; the product of DC coefficient and quantiser is taken without overflow.
- JpegDecoder.Jpeg.HuffDecode: does not say what the bit count is after an error, because decoding stops there.
- PngImage.CreateImageRaw: memory is a limit on the size of one block, given by the caller.
- PngRows.UnfilterPacked: the copy used for the filter type "none" is the general loop with nothing added.
- PngExpand.ExpandRow: the unrolled loops for the three depths are one loop over the samples of a byte, with the same reads and writes in the same order.
- PngInterlace.CreateImage: sizes stay below 2^32 - 8, far above what the loader admits; memory is a limit on the size of one block.
- GifStandard.IndicesAreStandard: code sizes 1 to 12. With size 0 the first codes have one bit for three entries, and no standard says how such codes grow; there only GifLoader.Gif.ProcessRaster says what the decoder does.
- GifImage.LoadImage: the first image of a file; disposal of further frames, and the reading of the blocks around images, are not part of the model. Indices behind the end of a colour table show whatever the table's memory holds, which is left open.
- Pool.CPool.New: objects are slot numbers; handles are unbounded numbers, so pools have fewer than 2^23 slots; a pool has at least one slot.
- SendQueue.PresentedOnceInOrder: handlers are arbitrary nested calls, vetoes and replacements; the functions rakhook::send and rakhook::process are called on the main thread only; message contents and the network client are not modelled.
- Utf8.NValid: the text is a byte sequence that either holds a NUL or has n bytes.
- InputText.StoreText: the buffers of the widget library are one array, at least as large as the text that is stored with its terminator; the copy that the source makes with a negative size is not modelled.
- Progressive JPEG scans, inverse transform, colour conversion and vector kernels of the JPEG decoder: numerical, or further callers of the same bit reading.
- PNG and JPEG chunk and marker parsing, palettes, and the BMP, TGA, PSD, PIC, PNM and HDR loaders: parsing that would only add easy members.
- CPool::CreateAtRef, SetIdAt and SetFreeAt: unchecked setters outside the allocator's rules; GetAt and IsObjectValid: the test whether a slot is live, as in IsFreeSlotAtIndex.
- Upper and lower case tables and string search of the UTF-8 library: finite lookups.
- Scripts, hooks, audio, rendering and game structures: no state of their own that the parts above need.
