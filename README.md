# uJPEG, modelled in Dafny

This project models uJPEG, the small baseline JPEG decoder in `src/pixie/fileformats/ujpeg/ujpeg.c` and `ujpeg.h`.
It covers the decoder from its first byte to its packed output:

- the segment parsers for SOF0, DHT, DQT, DRI, SOS and APP1/Exif;
- the marker loop of `ujDecode`, with its sticky error code;
- the bit reader, which removes byte stuffing and handles the markers inside entropy-coded data;
- the 16-bit Huffman lookup rows and the EXTEND step of `ujGetVLC`;
- block decoding, with the zig-zag order and dequantisation;
- the fixed-point inverse DCT;
- the chroma upsamplers: the centred and co-sited cubic filters and pixel repetition;
- the conversion to packed RGB or grayscale;
- the public API: `ujCreate`, `ujDecode`, `ujDisableDecoding`, `ujSetChromaMode`, the getters and `ujGetImage`.

The modules follow the structure of the C file:

| module | file | what it holds |
|---|---|---|
| `Common` | `common.dfy` | result codes, `ujClip`, `ujDecode16`, 32-bit wrap-around, powers of two |
| `ZigZag` | `zigzag.dfy` | `ujZZ` and its inverse |
| `BitStream` | `bitstream.dfy` | the bit reader as functions over the input bytes; the stuffing round trip |
| `Huffman` | `huffman.dfy` | the DHT parser and the filling of the lookup rows; EXTEND |
| `Entropy` | `entropy.dfy` | `ujGetVLC` and the coefficient loop of `ujDecodeBlock`, as functions |
| `Idct` | `idct.dfy` | `ujRowIDCT` and `ujColIDCT`: butterflies as functions, passes as array methods |
| `Segments` | `segments.dfy` | the SOF, DQT, DRI and SOS parsers on a segment body; the MCU geometry |
| `Exif` | `exif.dfy` | `ujDecodeExif` on the segment body |
| `Planes` | `planes.dfy` | the class `Component` (`ujComponent`) and the upsamplers |
| `Color` | `color.dfy` | the two branches of `ujConvert` |
| `Decoder` | `decoder.dfy` | the classes `Input` (cursor, bit buffer, error code) and `Context` (`ujContext`) |
| `Api` | `api.dfy` | the class `Library`, which holds the global `ujError`, with the public functions |

The C code mutates a context in place, so the model does too:

- `Context` and `Component` are classes.
- Their planes, lookup rows and coefficient block are arrays.
- Each state-changing routine is a method.
- Each method's contract ties the new state to a pure function of the old state and the input bytes (`Fill`, `GetVlc`, `Block`, `ParseSof`, `Installed` and so on), or, in the MCU loop, to predicates that relate a plane before and after (`Stroke` for one block, `Painting` for a component's blocks in one MCU, `Untouched` for one MCU). The loop over all MCUs states its status and markers, not its samples (see "Left out").
- The properties are proved about those functions.

C's input cursor `pos` becomes an index into a `seq<byte>`. An arithmetic right shift becomes floor division by a power of two.

The global `ujError` lives in two places:

- During a decode it is the `error` field of the context's `Input`. A routine that throws sets that field and returns. `ujCheckError` is a test of it.
- Between API calls it is the `error` field of `Api.Library`.

A few cases of the source are kept as written:

- Output row `2h - 2` of the co-sited vertical filter copies input row `h - 3`.
- The grayscale branch of `ujConvert` copies plane rows `1 .. h - 1`. The last output row is left as it was.
- A sampling factor of 8 is accepted.
- Once an error is raised it stays.
- The last three output samples of each row of the horizontal filters (`Planes.HCentered`, `Planes.HCoSited`) take their taps at the end of the row's `stride`, not at its last sample `width - 1`. The two agree only when the stride equals the width, which is why `Planes.HCoSitedKeepsSamples` needs `stride == w` for the last sample.

Integers are unbounded. 32-bit wrap-around is written out with `Wrap32` in three places: the plane size (`Segments.PlaneSizeAsWritten`), the image size (`Api.ImageSizeAsWritten`) and the Exif IFD offset (`Exif.OffsetWrapIsHarmless`, where the wrap changes nothing). Signed overflow in the coefficient decoder and the inverse transform is not modelled (see "Left out").

## Model

| member | source | states |
|---|---|---|
| Common.Code | src/pixie/fileformats/ujpeg/ujpeg.h:52-64 | the result codes are numbered as the enum numbers them: `UJ_OK` is 0, and the internal end-of-scan code is 10, the only code above 9 |
| Common.CodesAreDistinct | src/pixie/fileformats/ujpeg/ujpeg.h:52-64 | no two result codes share a number; every reportable code is at most 9 |
| Common.Clip | src/pixie/fileformats/ujpeg/ujpeg.c:87-89 | saturates to 0..255: the identity inside, 0 below, 255 above |
| Common.Decode16 | src/pixie/fileformats/ujpeg/ujpeg.c:259-261 | a big-endian 16-bit value: below 65536, with high byte `hi` and low byte `lo` |
| Common.Wrap32 | src/pixie/fileformats/ujpeg/ujpeg.c:879 | the result lies in the 32-bit signed range and equals the argument whenever the argument does |
| Common.DhtSlot | src/pixie/fileformats/ujpeg/ujpeg.c:337 | `(a \| (a >> 3)) & 3` is one of the four lookup rows |
| Common.InPlane | src/pixie/fileformats/ujpeg/ujpeg.c:663-665 | sample `k` of row `r` of a plane of `h` rows lies inside the plane |
| Common.ColumnIsResidue | src/pixie/fileformats/ujpeg/ujpeg.c:517-544 | the positions a column walk visits on a buffer `w` wide are exactly those with remainder `x`, and the step count is the row |
| Common.RowOf | src/pixie/fileformats/ujpeg/ujpeg.c:654-666 | position `j` lies in row `y` exactly when `y * n <= j < y * n + n`, at column `j - y * n` |
| ZigZag.ZigZagIsPermutation | src/pixie/fileformats/ujpeg/ujpeg.c:82-85 | `ujZZ` is a permutation of 0..63 with the inverse `Unzig`, so no coefficient overwrites another |
| ZigZag.ZigZagInjective | src/pixie/fileformats/ujpeg/ujpeg.c:82-85 | two zig-zag positions naming the same block index are equal |
| ZigZag.ZigZagSlot | src/pixie/fileformats/ujpeg/ujpeg.c:418 | the index `ujZZ[k]` written by the coefficient loop lies in the block, and its zig-zag position is `k` |
| ZigZag.Zig | src/pixie/fileformats/ujpeg/ujpeg.c:418 | `ZZ[k]` is a block index whose zig-zag position is `k` |
| ZigZag.Pos | src/pixie/fileformats/ujpeg/ujpeg.c:82-85 | the zig-zag position of a block index is the inverse of `Zig` |
| ZigZag.ZigZagIsTheWalk | src/pixie/fileformats/ujpeg/ujpeg.c:82-85 | the table is the zig-zag walk of Figure A.6 of ITU-T T.81: it starts at 0, ends at 63, and each entry is one step of the walk from the previous |
| BitStream.NextBytes | src/pixie/fileformats/ujpeg/ujpeg.c:203-231 | one refill pass takes one or two bytes, moves the cursor forward and never past the end of the input |
| BitStream.PushSome | src/pixie/fileformats/ujpeg/ujpeg.c:210-226 | pushing one or two bytes is pushing them one after the other |
| BitStream.PushBytesKeepsPending | src/pixie/fileformats/ujpeg/ujpeg.c:210-226 | pushing bytes keeps the pending bits on top, in order |
| BitStream.Fill | src/pixie/fileformats/ujpeg/ujpeg.c:202-232 | the refill loop ends with at least `bits` bits and fewer than `bits + 16` pending; with enough bits already pending it reads nothing |
| BitStream.RefillStep | src/pixie/fileformats/ujpeg/ujpeg.c:203-231 | one pass of the refill loop adds 8 or 16 pending bits and keeps the cursor inside the input |
| BitStream.PushByte | src/pixie/fileformats/ujpeg/ujpeg.c:210-211 | shifting a byte into the buffer adds 8 pending bits, keeps the buffer within its pending bits and leaves the cursor alone |
| BitStream.PushBytes | src/pixie/fileformats/ujpeg/ujpeg.c:210-226 | pushing `n` bytes adds `8n` pending bits and leaves the cursor alone |
| BitStream.Window | src/pixie/fileformats/ujpeg/ujpeg.c:233 | the value shown for `bits` bits is below `2^bits` |
| BitStream.Consume | src/pixie/fileformats/ujpeg/ujpeg.c:239 | consuming `bits` bits removes exactly that many pending bits and reads no input |
| BitStream.Skip | src/pixie/fileformats/ujpeg/ujpeg.c:236-240 | `ujSkipBits` keeps the reader inside the input; with enough bits pending it reads nothing, raises nothing and drops exactly `bits` bits |
| BitStream.Align | src/pixie/fileformats/ujpeg/ujpeg.c:248-250 | `ujByteAlign` leaves a whole number of bytes pending, dropping fewer than 8 bits and reading no input |
| BitStream.AlignIsMask | src/pixie/fileformats/ujpeg/ujpeg.c:248-250 | `bufbits & 0xF8` rounds the count down to a multiple of 8, dropping fewer than 8 bits |
| BitStream.RestartMaskIsRange | src/pixie/fileformats/ujpeg/ujpeg.c:222 | `(m & 0xF8) == 0xD0` holds exactly for 0xD0..0xD7 |
| BitStream.RestartByte | src/pixie/fileformats/ujpeg/ujpeg.c:222 | the same on a byte value |
| BitStream.FillKeepsWindow | src/pixie/fileformats/ujpeg/ujpeg.c:199-234 | a refill never changes the top bits already pending, so a value shown is not consumed |
| BitStream.StepKeepsWindow | src/pixie/fileformats/ujpeg/ujpeg.c:211 | pushing bytes leaves the top `k` pending bits unchanged |
| BitStream.ShowIsIdempotent | src/pixie/fileformats/ujpeg/ujpeg.c:199-234 | a second `ujShowBits` of no more bits reads no input and returns the same value |
| BitStream.Drain | src/pixie/fileformats/ujpeg/ujpeg.c:202-232 | `n` refill passes keep the cursor inside the input |
| BitStream.StuffRoundTrip | src/pixie/fileformats/ujpeg/ujpeg.c:212-219 | reading data stuffed as in section F.1.2.3 of ITU-T T.81 gives back the data, one pass per byte, with no error, ending right behind it |
| BitStream.StuffIsStuffedAt | src/pixie/fileformats/ujpeg/ujpeg.c:212-219 | the stuffing encoder's output holds its input in stuffed form |
| BitStream.StuffRead | src/pixie/fileformats/ujpeg/ujpeg.c:212-219 | the round trip for stuffed data at any position of any input |
| BitStream.StuffedByteRead | src/pixie/fileformats/ujpeg/ujpeg.c:208-219 | one pass takes a data byte from its stuffed form, and the remaining bytes are read from behind it |
| BitStream.ExhaustedPads | src/pixie/fileformats/ujpeg/ujpeg.c:203-207 | once the input is used up, every pass yields 0xFF, with no error |
| BitStream.EndOfImagePads | src/pixie/fileformats/ujpeg/ujpeg.c:220 | an end-of-image marker inside entropy-coded data reads as 0xFF followed by 0xFF padding |
| BitStream.RestartMarkerKept | src/pixie/fileformats/ujpeg/ujpeg.c:221-227 | a restart marker reaches the bit buffer as its two bytes, with no error |
| BitStream.MarkerTest | src/pixie/fileformats/ujpeg/ujpeg.c:462 | the restart test lets through exactly the word `0xFFD0 + n` |
| BitStream.LowBits | src/pixie/fileformats/ujpeg/ujpeg.c:462 | `b & 7` is `b % 8` |
| BitStream.NextMarker | src/pixie/fileformats/ujpeg/ujpeg.c:464 | `(n + 1) & 7` is the number of the next restart marker, cycling through 0..7 |
| Huffman.Spread | src/pixie/fileformats/ujpeg/ujpeg.c:342-344 | a code of `L` bits covers between 1 and 32768 slots |
| Huffman.Entries | src/pixie/fileformats/ujpeg/ujpeg.c:338-359 | the symbols of a table, listed by code length as in Figure C.1 of ITU-T T.81, are canonical, take their values in order, and number `Sum(counts)` |
| Huffman.Layout | src/pixie/fileformats/ujpeg/ujpeg.c:350-357 | the slots a table fills number `Used(es)` |
| Huffman.Installed | src/pixie/fileformats/ujpeg/ujpeg.c:343-363 | a filled row has exactly 65536 slots |
| Huffman.CodeAddress | src/pixie/fileformats/ujpeg/ujpeg.c:348-357 | the first slot of symbol `k` is its canonical code followed by zero bits |
| Huffman.LayoutPrefix | src/pixie/fileformats/ujpeg/ujpeg.c:350-357 | the slots of a prefix of the symbols are a prefix of the slots of the whole table |
| Huffman.LayoutAt | src/pixie/fileformats/ujpeg/ujpeg.c:350-357 | every 16-bit index that starts with the canonical code of a symbol selects that symbol, as Annex C of ITU-T T.81 requires |
| Huffman.CodesFit | src/pixie/fileformats/ujpeg/ujpeg.c:348-349 | when `remain` stays non-negative, every canonical code fits in its own length |
| Huffman.InstalledLookup | src/pixie/fileformats/ujpeg/ujpeg.c:343-363 | in a filled row, each slot below `Used` holds its symbol with a non-zero length, and each slot above it is marked unused |
| Huffman.UsedLevel | src/pixie/fileformats/ujpeg/ujpeg.c:348 | each code length adds `currcnt << (16 - codelen)` used slots, which is what `remain` counts down |
| Huffman.SlotOfClassAndId | src/pixie/fileformats/ujpeg/ujpeg.c:335-337 | the bytes that pass both masks are exactly 0x00, 0x01, 0x10 and 0x11; DC tables go to rows 0 and 1, AC tables to rows 2 and 3 |
| Huffman.ParseTable | src/pixie/fileformats/ujpeg/ujpeg.c:333-359 | an accepted table takes at least 17 bytes, is canonical, fills at most 65536 slots and selects one of the four rows; a rejection is a syntax error or unsupported |
| Huffman.ParseDht | src/pixie/fileformats/ujpeg/ujpeg.c:328-366 | every table of an accepted DHT segment is canonical, fits its row and selects a valid row; errors are syntax or unsupported |
| Huffman.InstallAll | src/pixie/fileformats/ujpeg/ujpeg.c:333-364 | installing a segment keeps four rows of 65536 slots |
| Huffman.Install | src/pixie/fileformats/ujpeg/ujpeg.c:341-363 | the method leaves the row equal to `Installed(es, old row)` |
| Huffman.PutSymbol | src/pixie/fileformats/ujpeg/ujpeg.c:350-357 | the slots of symbol `k` are written after those of the symbols before it; the rest of the row is untouched |
| Huffman.ExtendRange | src/pixie/fileformats/ujpeg/ujpeg.c:400-403 | an EXTENDed value of category `s` has magnitude between `2^(s-1)` and `2^s - 1`, and its sign comes from the top bit |
| Huffman.Category | src/pixie/fileformats/ujpeg/ujpeg.c:398-403 | a non-zero value has a magnitude category of at least 1 |
| Huffman.CategoryBounds | src/pixie/fileformats/ujpeg/ujpeg.c:401 | a magnitude lies between `2^(s-1)` and `2^s` for its category `s` |
| Huffman.ExtendRoundTrip | src/pixie/fileformats/ujpeg/ujpeg.c:400-403 | EXTEND of the additional bits of a non-zero value, read in its category, gives the value back |
| Huffman.ExtendIsInjective | src/pixie/fileformats/ujpeg/ujpeg.c:400-403 | every `s`-bit pattern decodes to a non-zero value of category `s` whose additional bits are that pattern |
| Entropy.GetVlc | src/pixie/fileformats/ujpeg/ujpeg.c:391-404 | an unused slot is a syntax error with value 0 and no symbol stored; otherwise the symbol is the slot's symbol, a zero size nibble gives 0, and any other value lies in the category the nibble names |
| Entropy.Extended | src/pixie/fileformats/ujpeg/ujpeg.c:398-403 | the additional bits decode to a value in the category of the nibble; an earlier error stays |
| Entropy.WindowPrefix | src/pixie/fileformats/ujpeg/ujpeg.c:233 | the top `a` pending bits are the top `a` bits of the top `b` |
| Entropy.LookupDecodes | src/pixie/fileformats/ujpeg/ujpeg.c:392-396 | 16 bits that start with the code of symbol `k` index a slot holding symbol `k` |
| Entropy.GetVlcDecodes | src/pixie/fileformats/ujpeg/ujpeg.c:391-404 | when the next bits are the canonical code of a symbol of an installed table, `ujGetVLC` yields that symbol |
| Entropy.GetVlcRejects | src/pixie/fileformats/ujpeg/ujpeg.c:394 | an index past the table's codes is a syntax error with no symbol |
| Entropy.UnusedSlot | src/pixie/fileformats/ujpeg/ujpeg.c:394 | a slot of length 0 makes `ujGetVLC` raise a syntax error and return 0 without a symbol |
| Entropy.AcRound | src/pixie/fileformats/ujpeg/ujpeg.c:412-419 | one round of the coefficient loop keeps every coefficient at or before the current zig-zag position; the position strictly advances and stays below 63 when the loop goes on; errors stay |
| Entropy.Decide | src/pixie/fileformats/ujpeg/ujpeg.c:414-419 | after the symbol is read, the round stops or goes on at a later position; only the coefficient at the new position can change; the cursor is where the symbol left it |
| Entropy.AcLoop | src/pixie/fileformats/ujpeg/ujpeg.c:412-419 | the whole loop keeps the coefficients before its start position and the DC predictor; errors stay |
| Entropy.DcOnly | src/pixie/fileformats/ujpeg/ujpeg.c:409-411 | the cleared block holds `pred * q0` at DC and zeros elsewhere |
| Entropy.Block | src/pixie/fileformats/ujpeg/ujpeg.c:407-419 | the new DC predictor is the old one plus the decoded DC difference, and the block's DC is that predictor times the first quantiser |
| Entropy.BlockStart | src/pixie/fileformats/ujpeg/ujpeg.c:409-413 | a block is the AC loop started from the DC-only block right after the DC symbol |
| Entropy.EobBlockIsDcOnly | src/pixie/fileformats/ujpeg/ujpeg.c:414 | when the first AC symbol is EOB, the block does not throw and keeps only its DC coefficient |
| Entropy.ZeroRunSkips | src/pixie/fileformats/ujpeg/ujpeg.c:415-418 | the ZRL symbol 0xF0 moves 16 positions on and writes a zero there |
| Idct.RowIdct | src/pixie/fileformats/ujpeg/ujpeg.c:100-143 | the row butterfly maps eight values to eight |
| Idct.ColIdct | src/pixie/fileformats/ujpeg/ujpeg.c:145-192 | the column butterfly maps eight values to eight |
| Idct.Samples | src/pixie/fileformats/ujpeg/ujpeg.c:167-190 | each stored sample is `clip(v + 128)` |
| Idct.RowShortcut | src/pixie/fileformats/ujpeg/ujpeg.c:102-106 | on a row without AC coefficients, the shortcut's eight copies of `blk[0] << 3` equal the butterfly |
| Idct.ColShortcut | src/pixie/fileformats/ujpeg/ujpeg.c:148-154 | on a column without AC values, the shortcut's eight copies of `(blk[0] + 32) >> 6` equal the butterfly |
| Idct.ColShortcutSamples | src/pixie/fileformats/ujpeg/ujpeg.c:148-154 | the shortcut column is eight copies of one clipped sample |
| Idct.Column | src/pixie/fileformats/ujpeg/ujpeg.c:145-147 | column `c` is the eight values `blk[8r + c]` |
| Idct.RowPassAt | src/pixie/fileformats/ujpeg/ujpeg.c:420-421 | each value after the row pass is the row butterfly of its row |
| Idct.DcOnlyTile | src/pixie/fileformats/ujpeg/ujpeg.c:420-423 | a DC-only block decodes to a flat tile of `clip(((8 * dc + 32) >> 6) + 128)` |
| Idct.DcOnlyColumn | src/pixie/fileformats/ujpeg/ujpeg.c:420-421 | after the row pass, each column of a DC-only block is `8 * dc` over zeros |
| Idct.RowIDCT | src/pixie/fileformats/ujpeg/ujpeg.c:100-143 | the method leaves `blk[off..off+8]` equal to the row butterfly of the old row, shortcut or not, and nothing else changes |
| Idct.StoreRow | src/pixie/fileformats/ujpeg/ujpeg.c:135-142 | the eight stores change exactly the row |
| Idct.ColIDCT | src/pixie/fileformats/ujpeg/ujpeg.c:145-192 | the method writes exactly the eight samples of the column, `stride` apart from `at`, each the clipped column butterfly, shortcut or not |
| Idct.ColumnSamples | src/pixie/fileformats/ujpeg/ujpeg.c:148-190 | the eight computed samples are those of the full butterfly |
| Idct.ShortcutColumn | src/pixie/fileformats/ujpeg/ujpeg.c:147-160 | when the seven AC entries of the column test zero, the eight copies of the clipped DC sample are the full butterfly's samples |
| Idct.WriteColumn | src/pixie/fileformats/ujpeg/ujpeg.c:151-190 | the stores change exactly the column's eight positions |
| Idct.TileColumn | src/pixie/fileformats/ujpeg/ujpeg.c:422-423 | column `c`'s walk visits exactly the tile positions of column `c`, row by row |
| Idct.ColumnStep | src/pixie/fileformats/ujpeg/ujpeg.c:422-423 | storing column `c` of the tile extends the columns already painted by exactly that column |
| Idct.Transform | src/pixie/fileformats/ujpeg/ujpeg.c:420-423 | the block is left holding its row pass; the 64 tile samples at `at` are painted with the column pass and nothing else in the plane changes |
| Idct.RowPasses | src/pixie/fileformats/ujpeg/ujpeg.c:420-421 | the row loop leaves the block equal to its row pass |
| Idct.RowLands | src/pixie/fileformats/ujpeg/ujpeg.c:421 | a row transformed in place holds that row of the row pass |
| Idct.ColumnPasses | src/pixie/fileformats/ujpeg/ujpeg.c:422-423 | the column loop sets each tile sample to its pixel and leaves everything outside the tile alone |
| Segments.PowerOfTwoMask | src/pixie/fileformats/ujpeg/ujpeg.c:296-298 | `n & (n - 1)` is zero on a non-zero nibble exactly for 1, 2, 4 and 8 |
| Segments.SelectorMask | src/pixie/fileformats/ujpeg/ujpeg.c:299 | `b & 0xFC` is zero exactly for 0..3 |
| Segments.ParseComponent | src/pixie/fileformats/ujpeg/ujpeg.c:294-299 | a component is accepted exactly when both factors are powers of two and the quantisation selector is below 4; an unsupported factor is `UJ_UNSUPPORTED`, and a zero factor or bad selector is a syntax error |
| Segments.ParseComponents | src/pixie/fileformats/ujpeg/ujpeg.c:293-304 | the list parses each 3-byte specification in order; a failure comes from one of them |
| Segments.SsxMax | src/pixie/fileformats/ujpeg/ujpeg.c:302 | `ssxmax` bounds every horizontal factor and is 0 for no components |
| Segments.SsyMax | src/pixie/fileformats/ujpeg/ujpeg.c:303 | `ssymax` bounds every vertical factor and is 0 for no components |
| Segments.MaxIsFactor | src/pixie/fileformats/ujpeg/ujpeg.c:302-308 | the largest factors of an accepted frame are themselves accepted factors |
| Segments.MbSizeX | src/pixie/fileformats/ujpeg/ujpeg.c:309 | an MCU is 8 to 64 samples wide |
| Segments.MbSizeY | src/pixie/fileformats/ujpeg/ujpeg.c:310 | an MCU is 8 to 64 samples high |
| Segments.ParseFrame | src/pixie/fileformats/ujpeg/ujpeg.c:275-326 | the frame header as written: an accepted frame has 1 or 3 components with accepted factors, sizes below 65536, and factors 1x1 for grayscale; errors are syntax or unsupported |
| Segments.ParseSof | src/pixie/fileformats/ujpeg/ujpeg.c:275-326 | the corrected frame header: as written, except that a width of 0 is a syntax error and a height of 0 (a DNL segment announced) is unsupported, so every accepted picture has at least one sample each way |
| Segments.GridIsNonEmpty | src/pixie/fileformats/ujpeg/ujpeg.c:311-312 | a non-empty picture has at least one MCU column and row |
| Segments.StrideIsWhole | src/pixie/fileformats/ujpeg/ujpeg.c:317-319 | the pitch is `8 * ssx * mbwidth` and the buffer height `8 * ssy * mbheight`: the divisions are exact |
| Segments.PlaneSizeIsNatural | src/pixie/fileformats/ujpeg/ujpeg.c:317-319 | pitch, padded height and plane size are non-negative |
| Segments.CeilCovers | src/pixie/fileformats/ujpeg/ujpeg.c:311-312 | rounding up a quotient covers the dividend |
| Segments.PlaneFits | src/pixie/fileformats/ujpeg/ujpeg.c:314-319 | a plane's width fits its pitch, and its height fits its padded height |
| Segments.PlaneSizes | src/pixie/fileformats/ujpeg/ujpeg.c:314-316 | a component with the largest factors gets the full picture size; every plane of a non-empty picture is at least 1x1 |
| Segments.ShareOfOne | src/pixie/fileformats/ujpeg/ujpeg.c:314-316 | a rounded-up share of a positive size is at least 1, and the whole size for the largest factor |
| Segments.SubsampledPlanesAreWide | src/pixie/fileformats/ujpeg/ujpeg.c:318 | a plane smaller than the picture in one direction has at least 3 samples that way, so the filters get their taps |
| Segments.BlockFits | src/pixie/fileformats/ujpeg/ujpeg.c:452 | every 8x8 block the scan writes lies inside `stride * paddedHeight` |
| Segments.TileFits | src/pixie/fileformats/ujpeg/ujpeg.c:452 | a tile at block row `R` and block column `C` ends inside the buffer |
| Segments.GrayFrame | src/pixie/fileformats/ujpeg/ujpeg.c:275-326 | a well-formed grayscale header parses to the frame it announces |
| Segments.HugeFrameWrapsToEmpty | src/pixie/fileformats/ujpeg/ujpeg.c:319 | a 65535x65535 grayscale frame is accepted; its plane size wraps to 0 in 32 bits, while the unbounded size is 2^32 |
| Segments.ZeroWidthFrameIsAccepted | src/pixie/fileformats/ujpeg/ujpeg.c:281-319 | a frame of width 0 passes the checks as written, with an empty plane and no MCU columns |
| Segments.ZeroWidthFrameIsRejected | src/pixie/fileformats/ujpeg/ujpeg.c:281-282 | the corrected parser rejects the same header as a syntax error |
| Segments.ZeroHeightFrameIsAccepted | src/pixie/fileformats/ujpeg/ujpeg.c:281-319 | a frame of height 0 passes the checks as written, with no MCU rows and an empty plane, yet one MCU column |
| Segments.ZeroHeightFrameIsRejected | src/pixie/fileformats/ujpeg/ujpeg.c:281-319 | the decoder of this model answers the same header with `UJ_UNSUPPORTED` |
| Segments.ParseDqt | src/pixie/fileformats/ujpeg/ujpeg.c:368-382 | an accepted DQT body is a whole number of 65-byte tables, each with an identifier below 4 and 64 values; a rejection is a syntax error |
| Segments.DqtRoundTrip | src/pixie/fileformats/ujpeg/ujpeg.c:368-382 | parsing the body an encoder writes for a list of tables gives the tables back |
| Segments.StoreTables | src/pixie/fileformats/ujpeg/ujpeg.c:376-378 | storing keeps four tables, and a table no identifier names is unchanged |
| Segments.Available | src/pixie/fileformats/ujpeg/ujpeg.c:375 | `qtavail` gains exactly the identifiers of the segment |
| Segments.StoredLast | src/pixie/fileformats/ujpeg/ujpeg.c:376-378 | the table stored last under an identifier is what `qtab` holds for it |
| Segments.ParseDri | src/pixie/fileformats/ujpeg/ujpeg.c:384-389 | a DRI body is accepted exactly when it has at least two bytes, and the interval is the big-endian value of the first two |
| Segments.SelectorByte | src/pixie/fileformats/ujpeg/ujpeg.c:436 | `b & 0xEE` is zero exactly for 0x00, 0x01, 0x10 and 0x11 |
| Segments.ParseSelectors | src/pixie/fileformats/ujpeg/ujpeg.c:434-440 | the selectors of an accepted scan number one per frame component, with DC rows 0..1 and AC rows 2..3 |
| Segments.ScanHeader | src/pixie/fileformats/ujpeg/ujpeg.c:430-442 | the scan header as written: an accepted header has the announced length and valid selectors; errors are syntax or unsupported |
| Segments.ParseScan | src/pixie/fileformats/ujpeg/ujpeg.c:430-442 | the corrected scan header: a scan before any frame is a syntax error; otherwise it is as written |
| Segments.EmptyScanIsAccepted | src/pixie/fileformats/ujpeg/ujpeg.c:431-432 | with no frame first, the header `0 0 63 0` is accepted as written and rejected when corrected |
| Segments.SelectorDecodes | src/pixie/fileformats/ujpeg/ujpeg.c:436-438 | the selector byte of a valid pair of rows passes the mask and decodes back to that pair |
| Segments.SelectorsRead | src/pixie/fileformats/ujpeg/ujpeg.c:434-440 | selector bytes written for the frame's components parse back to their row pairs |
| Segments.ScanRoundTrip | src/pixie/fileformats/ujpeg/ujpeg.c:430-442 | parsing the scan header an encoder wrote gives back the row selections |
| Exif.Get16 | src/pixie/fileformats/ujpeg/ujpeg.c:699-704 | a 16-bit field in either byte order is below 65536 |
| Exif.Get32 | src/pixie/fileformats/ujpeg/ujpeg.c:706-711 | a 32-bit field in either byte order is below 2^32 |
| Exif.ByteOrder | src/pixie/fileformats/ujpeg/ujpeg.c:725-730 | the byte order is little-endian exactly for the `II*` header and big-endian exactly for the `MM*` header |
| Exif.ScanEntries | src/pixie/fileformats/ujpeg/ujpeg.c:739-748 | the entry loop finds a YCbCrPositioning entry exactly when the specification function does, with the same siting |
| Exif.DecodeSegment | src/pixie/fileformats/ujpeg/ujpeg.c:724-748 | the straight-line code computes the siting `Exif.Decode` gives for the segment |
| Exif.Get16Put16 | src/pixie/fileformats/ujpeg/ujpeg.c:699-704 | a 16-bit field written in a byte order reads back in that order |
| Exif.Get32Put32 | src/pixie/fileformats/ujpeg/ujpeg.c:706-711 | a 32-bit field written in a byte order reads back in that order |
| Exif.BlockHeader | src/pixie/fileformats/ujpeg/ujpeg.c:725-737 | the test block has the byte-order header, the IFD offset 8 and one entry |
| Exif.BlockRoundTrip | src/pixie/fileformats/ujpeg/ujpeg.c:713-749 | decoding an Exif block with one YCbCrPositioning entry recovers its byte order, and co-siting exactly when the entry's value is 2 |
| Exif.OffsetWrapIsHarmless | src/pixie/fileformats/ujpeg/ujpeg.c:731-732 | the bounds test on the 32-bit IFD offset plus 6 rejects exactly what it would reject without wrap-around |
| Planes.Doublings | src/pixie/fileformats/ujpeg/ujpeg.c:607-609 | the shift is 0 exactly when the plane already covers the image |
| Planes.Grown | src/pixie/fileformats/ujpeg/ujpeg.c:607-644 | a grown size reaches the target, and stays below twice the target when it grew |
| Planes.GrownIsDoubling | src/pixie/fileformats/ujpeg/ujpeg.c:607-608 | the grown size is the size shifted left by the number of doublings |
| Planes.Widen | src/pixie/fileformats/ujpeg/ujpeg.c:607-608 | the shift loop computes the grown size and the shift |
| Planes.FastReadsInside | src/pixie/fileformats/ujpeg/ujpeg.c:614-619 | every replicated sample is read from inside the image the plane held |
| Planes.HCenteredRow | src/pixie/fileformats/ujpeg/ujpeg.c:489-515 | one output row holds the centred filter of its input row, and nothing else changes |
| Planes.HCenteredRowAt | src/pixie/fileformats/ujpeg/ujpeg.c:489-515 | the row pass for input row `y` writes exactly output row `y`, each sample the centred filter of its input row |
| Planes.HCoSitedRow | src/pixie/fileformats/ujpeg/ujpeg.c:548-574 | one output row holds the co-sited filter of its input row, and nothing else changes |
| Planes.HCoSitedRowAt | src/pixie/fileformats/ujpeg/ujpeg.c:548-574 | the row pass for input row `y` writes exactly output row `y`, each sample the co-sited filter of its input row |
| Planes.VCenteredColumn | src/pixie/fileformats/ujpeg/ujpeg.c:517-544 | one output column holds the centred filter of its input column, and nothing else changes |
| Planes.VCoSitedColumn | src/pixie/fileformats/ujpeg/ujpeg.c:576-602 | one output column holds the co-sited filter of its input column, including row `2h - 2` from input row `h - 3`, and nothing else changes |
| Planes.FastRow | src/pixie/fileformats/ujpeg/ujpeg.c:615-618 | output row `y` repeats each sample of input row `y >> ys` `1 << xs` times |
| Planes.FastPlane | src/pixie/fileformats/ujpeg/ujpeg.c:610-619 | the replicated plane has `w2 * h2` samples, each taken from input position `(y >> ys, x >> xs)` |
| Planes.HCenteredPlane | src/pixie/fileformats/ujpeg/ujpeg.c:489-515 | the centred horizontal output has `h` rows of `2w` filtered samples |
| Planes.HCoSitedPlane | src/pixie/fileformats/ujpeg/ujpeg.c:548-574 | the co-sited horizontal output has `h` rows of `2w` filtered samples |
| Planes.Component.constructor | src/pixie/fileformats/ujpeg/ujpeg.c:754 | a new component is zeroed |
| Planes.Component.Reset | src/pixie/fileformats/ujpeg/ujpeg.c:688-695 | `ujInit` leaves a component with its plane released and every field zero |
| Planes.Component.UpsampleHCentered | src/pixie/fileformats/ujpeg/ujpeg.c:489-515 | width doubled, stride = width, a fresh plane whose every sample is the centred filter of the old plane |
| Planes.Component.UpsampleHCoSited | src/pixie/fileformats/ujpeg/ujpeg.c:548-574 | width doubled, stride = width, a fresh plane whose every sample is the co-sited filter of the old plane |
| Planes.Component.UpsampleVCentered | src/pixie/fileformats/ujpeg/ujpeg.c:517-544 | height doubled, stride = width, a fresh plane whose every sample is the centred filter of the old plane |
| Planes.Component.UpsampleVCoSited | src/pixie/fileformats/ujpeg/ujpeg.c:576-602 | height doubled, stride = width, a fresh plane whose every sample is the co-sited filter of the old plane |
| Planes.Component.UpsampleFast | src/pixie/fileformats/ujpeg/ujpeg.c:604-623 | the plane grows to cover the image; it is unchanged when it already did, and otherwise each sample is the replicated input sample |
| Planes.Component.UpsampleStep | src/pixie/fileformats/ujpeg/ujpeg.c:633-644 | one round doubles the width when it is short, then the height when it is short |
| Planes.Component.UpsampleAccurate | src/pixie/fileformats/ujpeg/ujpeg.c:633-644 | the accurate loop grows the plane to the grown size each way, keeping the plane when it already covered the image |
| Planes.FiltersKeepFlatLines | src/pixie/fileformats/ujpeg/ujpeg.c:475-487 | the taps of each filter add up to its divisor, so a flat line stays flat |
| Planes.FlatSums | src/pixie/fileformats/ujpeg/ujpeg.c:475-487 | on a flat line the centred taps sum to 128 times the value, and the co-sited ones to 16 times |
| Planes.FiltersKeepFlatPlanes | src/pixie/fileformats/ujpeg/ujpeg.c:489-602 | all four filter passes keep a flat plane flat |
| Planes.HCoSitedKeepsSamples | src/pixie/fileformats/ujpeg/ujpeg.c:548-574 | the co-sited horizontal pass keeps each input sample at output `2x` |
| Planes.VCoSitedKeepsRows | src/pixie/fileformats/ujpeg/ujpeg.c:576-602 | the co-sited vertical pass keeps input rows at even output rows, and output row `2h - 2` repeats input row `h - 3` |
| Color.NeutralChromaIsGray | src/pixie/fileformats/ujpeg/ujpeg.c:656-661 | with both chroma samples at 128, each channel equals the luma sample |
| Color.ChannelsRound | src/pixie/fileformats/ujpeg/ujpeg.c:659-661 | an unclamped channel is its fixed-point value rounded to the nearest integer |
| Color.ChannelsFollowLuma | src/pixie/fileformats/ujpeg/ujpeg.c:656-661 | a brighter luma sample never gives a darker channel |
| Color.RgbIndex | src/pixie/fileformats/ujpeg/ujpeg.c:654-662 | packed byte `j` is channel `j % 3` of pixel `(j / 3) % w` of row `(j / 3) / w` |
| Color.RgbRow | src/pixie/fileformats/ujpeg/ujpeg.c:655-662 | one row loop writes exactly `3w` bytes, each the converted channel of its pixel |
| Color.RgbRowAt | src/pixie/fileformats/ujpeg/ujpeg.c:654-666 | row `y` of the packed picture holds the RGB samples of plane row `y` |
| Color.ConvertRgb | src/pixie/fileformats/ujpeg/ujpeg.c:648-666 | the first `3wh` bytes hold the converted picture, row by row, and the rest of the buffer is unchanged |
| Color.CopyRow | src/pixie/fileformats/ujpeg/ujpeg.c:672 | `memcpy` sets exactly `n` bytes |
| Color.GrayRowAt | src/pixie/fileformats/ujpeg/ujpeg.c:671-675 | output row `r` is plane row `r + 1` |
| Color.ConvertGray | src/pixie/fileformats/ujpeg/ujpeg.c:667-676 | the first `w * (h - 1)` bytes hold plane rows `1 .. h - 1`, and the last row is left as it was |
| Color.GrayIsShiftedUp | src/pixie/fileformats/ujpeg/ujpeg.c:669-675 | grayscale output row `r` holds plane row `r + 1`, so the first image row is lost |
| Color.NeutralPlanesAreGray | src/pixie/fileformats/ujpeg/ujpeg.c:648-666 | neutral chroma planes give a gray picture: every byte is its pixel's luma |
| Decoder.Announced | src/pixie/fileformats/ujpeg/ujpeg.c:263-268 | a length field is read only with two bytes left and must fit the input; it announces at most `size - 2` body bytes, and an error is a syntax error |
| Decoder.LengthAsWritten | src/pixie/fileformats/ujpeg/ujpeg.c:263-268 | as written, `ujThrow` leaves only `ujDecodeLength`: the error is raised, yet the length and cursor the caller goes on with are those stated |
| Decoder.OversizedLengthReadsPastEnd | src/pixie/fileformats/ujpeg/ujpeg.c:278-283 | for `FF D8 FF C0 08 00`, the length 2048 passes `length < 9` and the SOF parser reads beyond the input |
| Decoder.OversizedLengthStops | src/pixie/fileformats/ujpeg/ujpeg.c:263-268 | with the correction, the same input ends the segment with a syntax error for every parser |
| Decoder.Segment | src/pixie/fileformats/ujpeg/ujpeg.c:263-268 | a segment body fits its announced length; a bad length field is a syntax error |
| Decoder.RefillOf | src/pixie/fileformats/ujpeg/ujpeg.c:203-231 | the method's refill pass is the function's |
| Decoder.Input.constructor | src/pixie/fileformats/ujpeg/ujpeg.c:754 | a new cursor is empty, with no error |
| Decoder.Input.Refill | src/pixie/fileformats/ujpeg/ujpeg.c:203-231 | one refill pass moves the buffer and cursor as `RefillStep` does and raises its error |
| Decoder.Input.ShowBits | src/pixie/fileformats/ujpeg/ujpeg.c:199-234 | the bits shown are the window of `Fill`; the state and error follow it |
| Decoder.Input.SkipBits | src/pixie/fileformats/ujpeg/ujpeg.c:236-240 | skipping is `BitStream.Skip` |
| Decoder.Input.GetBits | src/pixie/fileformats/ujpeg/ujpeg.c:242-246 | the value is the window of the refill, and the bits are then consumed |
| Decoder.Input.ByteAlign | src/pixie/fileformats/ujpeg/ujpeg.c:248-250 | the pending bits become `Align` of them, and nothing else changes |
| Decoder.Input.GetVLC | src/pixie/fileformats/ujpeg/ujpeg.c:391-404 | the value, the stored symbol, the cursor and the error are those of `Entropy.GetVlc` |
| Decoder.Input.SetError | src/pixie/fileformats/ujpeg/ujpeg.c:196 | records the error and leaves the cursor alone |
| Decoder.Input.Skip | src/pixie/fileformats/ujpeg/ujpeg.c:252-257 | moves cursor, size and length by `count`; the error becomes a syntax error exactly when the size goes negative |
| Decoder.Input.Reset | src/pixie/fileformats/ujpeg/ujpeg.c:692 | no input and no pending bits; the error code is kept |
| Decoder.Input.Start | src/pixie/fileformats/ujpeg/ujpeg.c:780-784 | a clear error and the cursor on byte 0 of the `|jpeg|` bytes |
| Decoder.Input.DecodeLength | src/pixie/fileformats/ujpeg/ujpeg.c:263-268 | a bad field leaves the cursor with its error; a good one steps over the field and sets `length` |
| Decoder.Input.Open | src/pixie/fileformats/ujpeg/ujpeg.c:263-268 | the segment parsers start on the body given by `Segment`, or stop with its error |
| Decoder.Input.Parse | src/pixie/fileformats/ujpeg/ujpeg.c:263-325 | a parser's walk: the result is `Parsed` of the body, the error is its outcome, and a success steps over exactly the announced length |
| Decoder.Input.SkipMarker | src/pixie/fileformats/ujpeg/ujpeg.c:270-273 | a good length field steps over the whole segment; a bad one stops with its error |
| Decoder.Input.TakeSegment | src/pixie/fileformats/ujpeg/ujpeg.c:720-723 | Exif's framing: the body is remembered and stepped over |
| Decoder.HoldsPlaced | src/pixie/fileformats/ujpeg/ujpeg.c:313-324 | a component laid out for a frame lies on the frame's MCU grid |
| Decoder.Picturing | src/pixie/fileformats/ujpeg/ujpeg.c:281-283 | the picture's size and component count are the frame's |
| Decoder.CidsOf | src/pixie/fileformats/ujpeg/ujpeg.c:434-435 | the scan is matched against the identifiers of the first `ncomp` components, in order |
| Decoder.PlacedIsUsable | src/pixie/fileformats/ujpeg/ujpeg.c:318 | a placed component has a usable shape and, when smaller than the picture, at least 3 samples that way |
| Decoder.CountStep | src/pixie/fileformats/ujpeg/ujpeg.c:459-468 | one more MCU either counts the restart countdown down, or resets it and expects the next marker |
| Decoder.LayOut | src/pixie/fileformats/ujpeg/ujpeg.c:293-324 | a component gets its identifier, factors, selector, plane size and pitch from the frame, and, unless decoding is disabled, a fresh plane of mid-gray (0x80) samples |
| Decoder.AppMask | src/pixie/fileformats/ujpeg/ujpeg.c:803 | `(m & 0xF0) == 0xE0` selects exactly APP0..APP15 |
| Decoder.Rejected | src/pixie/fileformats/ujpeg/ujpeg.c:794-807 | the loop rejects exactly the markers other than SOF0, DHT, DQT, DRI, SOS, COM and APPn, among them SOF2 and EOI |
| Decoder.PackRgb | src/pixie/fileformats/ujpeg/ujpeg.c:648-666 | the RGB branch packs each byte as `Color.RgbSample` of the planes |
| Decoder.PackGray | src/pixie/fileformats/ujpeg/ujpeg.c:667-676 | the gray branch packs the luma rows from the second on, and leaves the last row as it was |
| Decoder.Upsample | src/pixie/fileformats/ujpeg/ujpeg.c:628-646 | a plane grows to cover the picture; in fast mode each new sample is the replicated one |
| Decoder.NewRow | src/pixie/fileformats/ujpeg/ujpeg.c:754 | a fresh lookup row is blank |
| Decoder.ClearRow | src/pixie/fileformats/ujpeg/ujpeg.c:692 | `memset` leaves a row blank |
| Decoder.ClearBlock | src/pixie/fileformats/ujpeg/ujpeg.c:409 | `memset` leaves the block zero |
| Decoder.Context.constructor | src/pixie/fileformats/ujpeg/ujpeg.c:753-757 | `ujCreate`: a valid, zeroed context with no error, decoding on and accurate chroma |
| Decoder.Context.LaidKept | src/pixie/fileformats/ujpeg/ujpeg.c:426-471 | the layout survives steps that leave the picture fields and components alone |
| Decoder.Context.LayoutKept | src/pixie/fileformats/ujpeg/ujpeg.c:434-440 | the layout survives changes to the table selectors, predictors and samples |
| Decoder.Context.ValidKept | src/pixie/fileformats/ujpeg/ujpeg.c:790-808 | the invariant survives steps that keep its fields and a good cursor |
| Decoder.Context.Rows | src/pixie/fileformats/ujpeg/ujpeg.c:341 | the context has four lookup rows of 65536 slots |
| Decoder.Context.ZeroedIsValid | src/pixie/fileformats/ujpeg/ujpeg.c:692 | a zeroed context satisfies the invariant |
| Decoder.Context.ClearFields | src/pixie/fileformats/ujpeg/ujpeg.c:692 | the scalar fields are zeroed |
| Decoder.Context.ClearPicture | src/pixie/fileformats/ujpeg/ujpeg.c:692 | the picture and frame-state fields are zeroed |
| Decoder.Context.ClearTables | src/pixie/fileformats/ujpeg/ujpeg.c:692 | the table, restart, Exif and packed-image fields are zeroed |
| Decoder.Context.ClearComponents | src/pixie/fileformats/ujpeg/ujpeg.c:681-692 | the components are zeroed and their planes released |
| Decoder.Context.ClearLookups | src/pixie/fileformats/ujpeg/ujpeg.c:692 | the lookup rows and the block are zeroed |
| Decoder.Context.ClearParts | src/pixie/fileformats/ujpeg/ujpeg.c:679-692 | the parts are zeroed, the planes released and the error kept |
| Decoder.Context.Init | src/pixie/fileformats/ujpeg/ujpeg.c:688-695 | `ujInit`: a valid zeroed context that keeps both option flags and the error code |
| Decoder.Context.AcStep | src/pixie/fileformats/ujpeg/ujpeg.c:414-418 | the rest of a coefficient round is `Entropy.Decide`: throws a syntax error, stops, or writes the coefficient |
| Decoder.Context.Coefficients | src/pixie/fileformats/ujpeg/ujpeg.c:412-419 | the coefficient loop leaves the cursor, error and block of `Entropy.AcLoop` |
| Decoder.Context.AcIteration | src/pixie/fileformats/ujpeg/ujpeg.c:413-419 | one round leaves what `Entropy.AcLoop` still has to do unchanged, moves forward in zig-zag order, or ends with the loop's own cursor, error and block |
| Decoder.Context.StartBlock | src/pixie/fileformats/ujpeg/ujpeg.c:409-411 | the block is cleared to `DcOnly(pred, q0)` |
| Decoder.Context.DcStep | src/pixie/fileformats/ujpeg/ujpeg.c:409-411 | the predictor gains the DC difference, and the block becomes DC-only |
| Decoder.Context.BlockCoefficients | src/pixie/fileformats/ujpeg/ujpeg.c:407-419 | the cursor, predictor, error and block are those of `Entropy.Block` |
| Decoder.Context.DecodeBlock | src/pixie/fileformats/ujpeg/ujpeg.c:406-424 | `Entropy.Block`'s state; a throw leaves the plane unchanged, and otherwise its tile is painted with the inverse transform of the block |
| Decoder.Context.DecodeDri | src/pixie/fileformats/ujpeg/ujpeg.c:384-389 | the interval is `ParseDri`'s on success; on failure it is unchanged and the error is raised |
| Decoder.Context.DecodeDqt | src/pixie/fileformats/ujpeg/ujpeg.c:368-382 | on success the tables are stored and marked available; on failure nothing changes and the error is raised |
| Decoder.Context.StoreQuantTables | src/pixie/fileformats/ujpeg/ujpeg.c:372-380 | the table loop gives `StoreTables` and `Available` |
| Decoder.Context.DecodeDht | src/pixie/fileformats/ujpeg/ujpeg.c:328-366 | on success the rows are `InstallAll` of the tables; on failure they are unchanged and the error is raised |
| Decoder.Context.InstallTables | src/pixie/fileformats/ujpeg/ujpeg.c:333-364 | the table loop gives `InstallAll` |
| Decoder.Context.DecodeSof | src/pixie/fileformats/ujpeg/ujpeg.c:275-326 | the error is `ParseSof`'s outcome; on success the stored frame is the parsed one; on failure the picture, the components and `qtused` are unchanged; the invariant is kept either way |
| Decoder.Context.Lay | src/pixie/fileformats/ujpeg/ujpeg.c:301-324 | an accepted frame sets the picture fields from the header, lays out every component for its frame component with a fresh mid-gray plane unless decoding is disabled, marks its quantisation tables used, and keeps the invariant |
| Decoder.Context.LayOutAll | src/pixie/fileformats/ujpeg/ujpeg.c:313-324 | each frame component is laid out in its slot |
| Decoder.Context.SetPicture | src/pixie/fileformats/ujpeg/ujpeg.c:281-312 | the picture fields come from the frame, and `qtused` gains its selectors |
| Decoder.Context.DecodeExif | src/pixie/fileformats/ujpeg/ujpeg.c:713-749 | a bad length is raised; otherwise the segment is stepped over and the siting is `Exif.Decode` of its body, or unchanged when decoding is off or chroma is fast |
| Decoder.Context.ReadExif | src/pixie/fileformats/ujpeg/ujpeg.c:720-749 | a bad length is raised and the siting kept; otherwise the cursor is past the segment and the siting is `Exif.Decode` of its body |
| Decoder.Context.DecodeScan | src/pixie/fileformats/ujpeg/ujpeg.c:426-471 | a rejected header raises its error and leaves the context invalid; an accepted one sets the selectors and makes the context valid, decoded unless decoding is off, ending with end-of-scan or a syntax error |
| Decoder.Context.Select | src/pixie/fileformats/ujpeg/ujpeg.c:434-440 | each component gets the rows its selector names |
| Decoder.Context.Scan | src/pixie/fileformats/ujpeg/ujpeg.c:434-470 | after an accepted header: valid, decoded unless decoding is off, ending with end-of-scan or a syntax error |
| Decoder.Context.ScanData | src/pixie/fileformats/ujpeg/ujpeg.c:443-470 | valid, then end-of-scan at once when decoding is off, or else the MCU loop |
| Decoder.Context.Accept | src/pixie/fileformats/ujpeg/ujpeg.c:443-445 | the flags set on an accepted header |
| Decoder.Context.DecodeMcus | src/pixie/fileformats/ujpeg/ujpeg.c:448-470 | the loop ends with end-of-scan after all `mbwidth * mbheight` MCUs, or a syntax error; it expects RST0..RST7 cyclically, one marker after every `rstinterval` MCUs but the last |
| Decoder.Context.Countdown | src/pixie/fileformats/ujpeg/ujpeg.c:459-468 | the restart countdown keeps its count, and a wrong marker throws |
| Decoder.Context.Resync | src/pixie/fileformats/ujpeg/ujpeg.c:460-467 | reading the expected RSTn extends the marker sequence RST0, RST1, ... by one and expects RST(n+1) modulo 8 next; a wrong marker throws a syntax error |
| Decoder.Context.Mcu | src/pixie/fileformats/ujpeg/ujpeg.c:449-454 | one MCU ends clean or with a syntax error, and every plane changes only inside that MCU |
| Decoder.Context.McuPlane | src/pixie/fileformats/ujpeg/ujpeg.c:449-454 | the blocks of one component in the MCU keep every sample outside the MCU, and leave the status they found, a clean one or a syntax error |
| Decoder.Context.Tile | src/pixie/fileformats/ujpeg/ujpeg.c:452-453 | the block is the one `Entropy.Block` decodes from the cursor and the component's DC predictor; cursor, predictor and error move as that block says; a throw leaves the plane unchanged, and otherwise the tile holds the block's inverse transform and every other sample is kept |
| Decoder.Context.Tiles | src/pixie/fileformats/ujpeg/ujpeg.c:450-454 | the component's blocks in raster order, each decoded where the one before left off and painted into its tile at `BlockOffset`; the loop stops after the first block that leaves an error and otherwise decodes all `ssx * ssy`; the plane changes only inside the MCU |
| Decoder.Context.NextMcu | src/pixie/fileformats/ujpeg/ujpeg.c:455-458 | the next MCU in raster order, and `last` exactly after MCU `mbwidth * mbheight - 1` |
| Decoder.TileInMcu | src/pixie/fileformats/ujpeg/ujpeg.c:452 | every sample of the tile of block (`sbx`, `sby`) of MCU (`mbx`, `mby`) lies in that MCU |
| Decoder.StrokeConfined | src/pixie/fileformats/ujpeg/ujpeg.c:452 | a block painted into its tile changes its plane only inside its MCU |
| Decoder.SofarGrows | src/pixie/fileformats/ujpeg/ujpeg.c:450-453 | one more block extends a component's scan: the scan goes on after a clean block, and otherwise ends as `Painting` says |
| Decoder.SofarDone | src/pixie/fileformats/ujpeg/ujpeg.c:450-451 | all `ssx * ssy` blocks decoded clean are a complete `Painting` with a clean status |
| Decoder.UntouchedStep | src/pixie/fileformats/ujpeg/ujpeg.c:449-454 | one plane changing only inside an MCU, the others unchanged, keeps all planes unchanged outside that MCU |
| Entropy.ChainGrows | src/pixie/fileformats/ujpeg/ujpeg.c:450-453 | the blocks decoded one after the other grow by the block decoded from where they end |
| Decoder.Context.Restart | src/pixie/fileformats/ujpeg/ujpeg.c:459-467 | aligns, reads the 16-bit word, throws unless it is RSTn, and otherwise clears all three predictors |
| Decoder.Context.ResetPredictors | src/pixie/fileformats/ujpeg/ujpeg.c:466-467 | all three DC predictors become 0 |
| Decoder.Context.UpsampleAll | src/pixie/fileformats/ujpeg/ujpeg.c:628-647 | each of the `ncomp` planes grows to the picture, and the others stay as they were |
| Decoder.Context.Convert | src/pixie/fileformats/ujpeg/ujpeg.c:625-677 | the planes grow to cover the picture; a colour picture is packed as `3wh` RGB bytes, and a grayscale one as luma rows `1 .. h - 1` with the last row kept |
| Decoder.Context.Cache | src/pixie/fileformats/ujpeg/ujpeg.c:903-905 | keeps `out` as the context's packed image |
| Decoder.Context.GrownLaid | src/pixie/fileformats/ujpeg/ujpeg.c:628-647 | the layout survives the upsampling |
| Decoder.Context.Pack | src/pixie/fileformats/ujpeg/ujpeg.c:648-676 | once the planes cover the picture, they are packed as `Convert` states |
| Decoder.Context.Run | src/pixie/fileformats/ujpeg/ujpeg.c:783-809 | no SOI gives `UJ_NO_JPEG`; the loop ends with OK only on a valid context; a valid context ends with OK, or with a syntax error after decoding began; `decoded` means valid with decoding on |
| Decoder.Context.Segment | src/pixie/fileformats/ujpeg/ujpeg.c:790-807 | a missing 0xFF is a syntax error; a round without error consumes input; only a scan makes the context valid; a rejected marker is `UJ_UNSUPPORTED` |
| Decoder.Context.Handle | src/pixie/fileformats/ujpeg/ujpeg.c:794-807 | the switch dispatches as `Dispatch` says |
| Decoder.Context.FrameSegment | src/pixie/fileformats/ujpeg/ujpeg.c:795 | a frame header leaves the context invalid |
| Decoder.Context.ScanSegment | src/pixie/fileformats/ujpeg/ujpeg.c:799 | a scan is one step of the marker loop: it ends the loop with the image valid, or leaves the context invalid with an error |
| Decoder.Context.Marker | src/pixie/fileformats/ujpeg/ujpeg.c:796-806 | table, interval, Exif and skipped segments end clean, or with a syntax or unsupported error; a rejected marker is `UJ_UNSUPPORTED` |
| Decoder.Context.MarkerSegment | src/pixie/fileformats/ujpeg/ujpeg.c:796-806 | any marker other than a frame or a scan is one step of the marker loop that leaves the context invalid; a rejected marker is `UJ_UNSUPPORTED` |
| Api.Gate | src/pixie/fileformats/ujpeg/ujpeg.c:860-891 | no context gives `UJ_NO_CONTEXT`, not ready gives `UJ_NOT_DECODED`; the status is OK exactly when both hold |
| Api.PlaneAsWritten | src/pixie/fileformats/ujpeg/ujpeg.c:884-886 | as written, a plane is returned exactly when decoded and `num < ncomp` |
| Api.NegativePlaneIsAccepted | src/pixie/fileformats/ujpeg/ujpeg.c:885 | plane number -1 passes the checks as written |
| Api.PlaneIndex | src/pixie/fileformats/ujpeg/ujpeg.c:882-887 | corrected: a plane is returned exactly when decoded and `0 <= num < ncomp`; otherwise `UJ_INVALID_ARG` or `UJ_NOT_DECODED` |
| Api.PlaneIndexOnlyAddsLowerBound | src/pixie/fileformats/ujpeg/ujpeg.c:885 | the correction changes only negative plane numbers |
| Api.ImageSizeAsWritten | src/pixie/fileformats/ujpeg/ujpeg.c:879 | the 32-bit product lies in the `int` range |
| Api.HugeImageSizeWraps | src/pixie/fileformats/ujpeg/ujpeg.c:879-905 | a 41887x34179 colour picture passes the header checks, yet its image size wraps to 23 |
| Api.Library.constructor | src/pixie/fileformats/ujpeg/ujpeg.c:80 | `ujError` starts as `UJ_OK` |
| Api.Library.GetError | src/pixie/fileformats/ujpeg/ujpeg.c:848-850 | the reported status is a public code, never the internal end-of-scan code |
| Api.Library.Create | src/pixie/fileformats/ujpeg/ujpeg.c:753-757 | a fresh zeroed context with status OK, decoding on and accurate chroma |
| Api.Library.Decode | src/pixie/fileformats/ujpeg/ujpeg.c:777-817 | the status is OK, no-JPEG, syntax or unsupported; no SOI returns null with `UJ_NO_JPEG`; a handle comes back exactly when the context is valid, with an OK status or a syntax error after decoding began; a given context keeps its flags |
| Api.Library.Report | src/pixie/fileformats/ujpeg/ujpeg.c:809-811 | records the status |
| Api.Library.DisableDecoding | src/pixie/fileformats/ujpeg/ujpeg.c:759-766 | sets `no_decode` and reports OK, or reports `UJ_NO_CONTEXT` |
| Api.Library.SetChromaMode | src/pixie/fileformats/ujpeg/ujpeg.c:768-775 | any non-zero mode selects fast chroma, and 0 the accurate mode; reports OK or `UJ_NO_CONTEXT` |
| Api.Library.IsValid | src/pixie/fileformats/ujpeg/ujpeg.c:852-856 | the answer is the context's `valid`; only a missing context sets the status |
| Api.Library.GetWidth | src/pixie/fileformats/ujpeg/ujpeg.c:858-862 | the width, at least 1, for a valid context; 0 and the failing status otherwise |
| Api.Library.GetHeight | src/pixie/fileformats/ujpeg/ujpeg.c:864-868 | the height, at least 1, for a valid context; 0 and the failing status otherwise |
| Api.Library.IsColor | src/pixie/fileformats/ujpeg/ujpeg.c:870-874 | colour exactly when there are three components, otherwise one; false on failure |
| Api.Library.GetImageSize | src/pixie/fileformats/ujpeg/ujpeg.c:876-880 | `width * height * ncomp`, at least the width, for a valid context; 0 and the failing status otherwise |
| Api.Library.GetPlane | src/pixie/fileformats/ujpeg/ujpeg.c:882-887 | component `num`, with a usable shape, exactly when `PlaneIndex` allows it; null with its status otherwise |
| Api.Library.GetImage | src/pixie/fileformats/ujpeg/ujpeg.c:889-910 | null exactly when the status fails; a given buffer receives a copy of the cached image or a fresh conversion; without one, the cached image is returned, or a fresh buffer of the image size is converted and cached |
| Api.IntoBuffer | src/pixie/fileformats/ujpeg/ujpeg.c:893-900 | the cached image is copied into the buffer unchanged, or the buffer receives the packed picture |
| Api.IntoCache | src/pixie/fileformats/ujpeg/ujpeg.c:901-908 | the returned buffer is the cache, of the image size; an existing cache is returned untouched, and otherwise a fresh packed one is made |
| Api.DecodeInto | src/pixie/fileformats/ujpeg/ujpeg.c:777-809 | the reset or created context, run on the input, as `Decoder.Context.Run` states |
| Api.Prepare | src/pixie/fileformats/ujpeg/ujpeg.c:778-779 | a given context is reset keeping its flags; without one a fresh context is created |
| Api.Copy | src/pixie/fileformats/ujpeg/ujpeg.c:895 | `memcpy` copies the first `n` bytes and keeps the rest |

## Left out

- `ujDecodeFile` and its file I/O (`UJ_IO_ERROR`) are not modelled; the model starts from the bytes in memory.
- Allocation failure (`UJ_OUT_OF_MEM`) is not modelled: every `malloc`, `calloc` and `ujCreate` succeeds.
- `ujDone`, `ujDestroy` and `ujFree` are not modelled; a plane released by `ujInit` is replaced by a fresh empty array.
- The `UJ_NODECODE_BLOCK_SIZE` build option, threads and the C++ wrapper class are not modelled.
- `size & 0x7FFFFFFF` in `ujDecode` is not modelled: the input is a `seq<byte>`, and its length is the size.
- The bit buffer `buf` is an `int` that `buf << 8` overflows in C. The model keeps only the pending bits, which is what every read of the buffer uses.
- An arithmetic right shift of a negative value is modelled as floor division by a power of two, which is what two's-complement machines compute.
- After a parse error the C code may have written some fields before throwing. The model leaves those fields as they were, and the context stays unusable either way: it is not valid, and `ujDecode` returns null for it.
- `ujGetImage` without a buffer: C stores the fresh buffer in `uj->rgb` before converting into it; the model caches it after the conversion, which matters only if the conversion fails, and it cannot fail here.
- A fresh buffer from `malloc` has undefined contents in C; in the model it is zeroed, so the grayscale picture's last row reads 0 there instead of undefined bytes.
- `UJ_INTERNAL_ERR` from `ujConvert` cannot happen: `Decoder.Context.Convert` proves that every plane covers the picture.
- Api.Library.GetImage: does not tie a cached image to the current planes, because the cache is packed once and the planes are not touched afterwards; only its size and the copy are stated.
- Planes.Component.UpsampleAccurate: states the final size but not the samples, because the number of passes depends on the plane; each single pass states its samples in full.
- Decoder.Context.DecodeSof: on success it states only the stored frame, not the picture fields, the component layout, the `qtused` update or the fresh mid-gray planes; `Decoder.Context.Lay`, which it calls on the parsed frame, states all four.
- Api.Library.IsColor: returns `bool`; C's `int` is `ncomp != 1`, which is the same on accepted frames.
- Api.Library.GetError: returns the model's `Status`, whose `Code()` is the C enum value.
- Api.Library.Decode: does not state the decoded samples; `Decoder.Context.Tiles` states them block by block within one MCU, and `Decoder.Context.Mcu` that one MCU changes only its own samples.
- Decoder.Context.DecodeMcus: does not state which samples keep their value across the MCUs, so the mid-gray left after a fault is not stated for the whole scan; `Decoder.Context.Mcu` states that each MCU changes only its own samples.
- Decoder.Context.Mcu: states where the samples change, not what each block paints; `Decoder.Context.Tiles` states that for one component.
- Idct.RowIdct, Idct.ColIdct, Idct.RowIDCT and Entropy.Block: signed 32-bit overflow on out-of-range coefficients, which is undefined behaviour in C, is not modelled; the model computes with unbounded integers. For instance an AC value of 16384 at natural index 4 with quantiser 128 gives 2^21, and the row transform's `<< 11` overflows; the DC predictor can likewise outgrow an `int` over many blocks.

## Findings

| source | as written | input that shows it | evidently intended | confidence | as-written member | corrected member |
|---|---|---|---|---|---|---|
| src/pixie/fileformats/ujpeg/ujpeg.c:263-268 | `ujThrow` in `ujDecodeLength` returns only from `ujDecodeLength`, so the segment parser goes on with the bad length | `FF D8 FF C0 08 00`: length 2048 with two bytes left; `ujDecodeSOF` passes `length < 9` and reads past the input | a bad length field ends the segment with `UJ_SYNTAX_ERROR` | high; not executed | Decoder.OversizedLengthReadsPastEnd | Decoder.OversizedLengthStops |
| src/pixie/fileformats/ujpeg/ujpeg.c:281-319 | a width of 0 is accepted, which gives a plane with pitch 0 and no samples | SOF0 with width 0, one component 1x1: the plane size is 0, yet the scan decodes a block into it | reject a zero width, which section B.2.2 of ITU-T T.81 does not allow (it allows a height of 0 only with a DNL segment, which the decoder does not support) | medium; not executed | Segments.ZeroWidthFrameIsAccepted | Segments.ZeroWidthFrameIsRejected |
| src/pixie/fileformats/ujpeg/ujpeg.c:312-319 | a height of 0 is accepted, which gives `mbheight` 0 and a plane with no samples | SOF0 with height 0 and width 8, one component 1x1: the plane size is 0, yet the MCU loop decodes its first row of MCUs into it before it tests `mby >= mbheight` | reject the header as `UJ_UNSUPPORTED`: section B.2.2 of ITU-T T.81 allows a height of 0 only when a DNL segment follows the first scan, which the decoder does not read | medium; not executed | Segments.ZeroHeightFrameIsAccepted | Segments.ZeroHeightFrameIsRejected |
| src/pixie/fileformats/ujpeg/ujpeg.c:885 | only `num >= ncomp` is rejected | `ujGetPlane(img, -1)` on a decoded image returns `&uj->comp[-1]` | plane numbers 0..2 only | high; not executed | Api.NegativePlaneIsAccepted | Api.PlaneIndex |
| src/pixie/fileformats/ujpeg/ujpeg.c:319 | `stride * paddedHeight` is computed in 32-bit `int` | grayscale 65535x65535 frame: 65536 * 65536 wraps to 0, and the blocks are written to an empty plane | a plane that holds every block of the scan | medium; not executed | Segments.HugeFrameWrapsToEmpty | Segments.BlockFits |
| src/pixie/fileformats/ujpeg/ujpeg.c:431-432 | a scan header naming 0 components is accepted when no frame came first | `FF D8 FF DA 00 06 00 00 3F 00`: the context becomes valid without a frame | a scan only after a frame header | medium; not executed | Segments.EmptyScanIsAccepted | Segments.ParseScan |
| src/pixie/fileformats/ujpeg/ujpeg.c:879 | `width * height * ncomp` is computed in 32-bit `int` | 41887x34179 colour picture: the size wraps to 23, while `ujGetImage` with no buffer allocates 23 bytes and writes over 4 billion | the true byte count | high; not executed | Api.HugeImageSizeWraps | Api.Library.GetImageSize |
