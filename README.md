# PixelLight core containers, codecs and string helpers in Dafny

This project models seven self-contained pieces of the PixelLight engine and
proves what their code and documentation promise.

- **DXT/LATC decompression** (`ImageData`), in modules `DxtBlocks`, `DxtImage`
  and `ImageData`.
  - The colour decoder expands RGB565 endpoints and builds the four-entry
    palette. Each pixel takes its colour through the 2-bit index stream.
  - The DXT3 decoder reads explicit 4-bit alphas; the DXT5/LATC decoder reads
    3-bit interpolated alphas.
  - `Decompress` walks the image plane by plane, block row by block row.
  - The `ImageData` class keeps the two buffers, the byte counts and the size.
  - The decoders and the block walk are methods over an `array<byte>`. Each is
    proved against pure functions that say which byte every pixel channel
    ends up holding (`BlockByte`, `Decoded`).
  - The walk is proved to consume exactly the bytes the compressed-size
    formula counts.
- **libc helpers of the Linux port** (`PLCoreLinux.cpp`):
  - `numlen` (module `NumLen`);
  - the in-place case mappings `_strupr`, `strlwr`, `_wcsupr` and `_wcslwr`
    (`CaseMapping`);
  - the RFC 2279 (1 to 6 octets) decoder `utf8_to_ucs4` and `mbrtowc`
    (`Utf8`);
  - `wcscasecmp` and `wcsncasecmp` (`WideCompare`);
  - `wcstoumax`, following section 7.8.2.3 of ISO C99 (`WideToUmax`).

  Each loop of the source is a method with its invariants. Each method is
  proved against a pure specification function, and the lemmas are about
  those functions.
- **The image palette** (`ImagePalette`): storage rounded up to multiples of
  256 colours, a grow-only `Resize`, `SetColor`, the copy constructor and
  assignment.
- **The base-directory list of `LoadableManager`** (`Loadables`): add without
  duplicates, membership, removal, and the priority reorder.
- **The OpenGL ES vertex buffer** (`VertexBuffers`):
  - the nested lock count, the locked pointer, and the read-only and upload
    flags;
  - the attribute offset table;
  - `GetData` addressing;
  - `Allocate` and `Clear`.

  The lock transitions are also pure functions (`LockStep`, `UnlockStep`),
  so that lemmas can relate several calls.
- **`ResourceManager<AType>`** (`Resources`) and **`ParameterManager`**
  (`Parameters`). Both keep an ordered list of members and a name index.
  - The shared module `Registries` states the one-to-one correspondence
    between the list and the index (`Registered`).
  - It proves what registering, unregistering, renaming and reordering
    preserve.
  - `Sequences` holds the list facts both use.

Pointers are modelled as follows:
- resources and parameters are identities (`nat`);
- raw buffers are `array<byte>`;
- a vertex-buffer address is a datatype, either null or an offset into the
  locked copy.

Unsigned C arithmetic is written out in these places (the byte counts of
images and palettes are assumed to fit 32 bits; see "Left out"):
- `wcstoumax` negates modulo 2^64;
- the vertex-buffer size is the `uint32` product of vertex size and count;
- `Unlock` decrements the count as a `uint32`;
- `numlen` divides with C's truncation toward zero.

Where the documented intent and the code differ, the model follows the code.
For example, a DXT3 colour block with c0 <= c1 decodes in three-colour mode.
`ImageData.cpp:678` tests for DXT5 only.

## Model

| member | source | states |
|---|---|---|
| `DxtBlocks.Expand565` | Engine/PLGraphics/Private/PLGraphics/Image/ImageData.cpp:665-676 | red and blue are the 5-bit fields shifted left by 3 (multiples of 8, at most 248), green the 6-bit field shifted left by 2 (multiple of 4, at most 252) |
| `DxtBlocks.Expand565RoundTrip` | Engine/PLGraphics/Private/PLGraphics/Image/ImageData.cpp:665-676 | the expansion loses no bit: packing the expanded endpoint gives back the 16-bit colour |
| `DxtBlocks.Word16` | Engine/PLGraphics/Private/PLGraphics/Image/ImageData.cpp:665-666 | a 16-bit little-endian word read from the block is below 65536 |
| `DxtBlocks.LittleEndian` | Engine/PLGraphics/Private/PLGraphics/Image/ImageData.cpp:735 | the little-endian value of k bytes is below 256^k |
| `DxtBlocks.ColorPalette` | Engine/PLGraphics/Private/PLGraphics/Image/ImageData.cpp:678-688 | a colour block has four palette entries |
| `DxtBlocks.PaletteBetweenEndpoints` | Engine/PLGraphics/Private/PLGraphics/Image/ImageData.cpp:678-688 | every component of entry 2 lies between the endpoints' components; in four-colour mode (c0 > c1, or DXT5) so does entry 3, otherwise entry 3 is black |
| `DxtBlocks.ThirdBetween` | Engine/PLGraphics/Private/PLGraphics/Image/ImageData.cpp:680-681 | `(2a + b + 1) / 3` lies between a and b |
| `DxtBlocks.HalfBetween` | Engine/PLGraphics/Private/PLGraphics/Image/ImageData.cpp:685 | `(a + b + 1) >> 1` lies between a and b |
| `DxtBlocks.ColorIndex` | Engine/PLGraphics/Private/PLGraphics/Image/ImageData.cpp:693-699 | a pixel's palette index is below 4 |
| `DxtBlocks.ColorIndexBits` | Engine/PLGraphics/Private/PLGraphics/Image/ImageData.cpp:693-699 | the index of pixel (x, y) is bits 2x..2x+1 of row byte y, least significant first |
| `DxtBlocks.Dxt3Value` | Engine/PLGraphics/Private/PLGraphics/Image/ImageData.cpp:718 | a 4-bit alpha v becomes 17v, so 0 gives 0 and 15 gives 255 |
| `DxtBlocks.Dxt3AlphaBits` | Engine/PLGraphics/Private/PLGraphics/Image/ImageData.cpp:714-722 | the alpha of pixel (x, y) is nibble x of row word y, least significant nibble first, times 17 |
| `DxtBlocks.Dxt5BitsAreTail` | Engine/PLGraphics/Private/PLGraphics/Image/ImageData.cpp:735 | shifting the 64-bit block word right by 16 leaves exactly the six index bytes |
| `DxtBlocks.Dxt5Code` | Engine/PLGraphics/Private/PLGraphics/Image/ImageData.cpp:740 | a DXT5 code is below 8 |
| `DxtBlocks.Dxt5CodeBits` | Engine/PLGraphics/Private/PLGraphics/Image/ImageData.cpp:737-758 | pixel (x, y) uses code number 4y + x of the index bits, whatever the block width |
| `DxtBlocks.SkipRowTail` | Engine/PLGraphics/Private/PLGraphics/Image/ImageData.cpp:756-757 | skipping 3(4 - w) bits after a row of width w puts the stream at the start of the next row's codes |
| `DxtBlocks.Dxt5Value` | Engine/PLGraphics/Private/PLGraphics/Image/ImageData.cpp:741-752 | every alpha but the fixed 0 and 255 codes of the six-alpha mode lies between the endpoints a0 and a1 |
| `DxtBlocks.Dxt5ExtremeCodes` | Engine/PLGraphics/Private/PLGraphics/Image/ImageData.cpp:747-748 | with a0 <= a1, code 6 gives 0 and code 7 gives 255 |
| `DxtBlocks.NumeratorBounds` | Engine/PLGraphics/Private/PLGraphics/Image/ImageData.cpp:746-750 | the weighted sum of the two endpoints lies between the total weight times the smaller and times the larger endpoint |
| `DxtBlocks.DecodeColorBlock` | Engine/PLGraphics/Private/PLGraphics/Image/ImageData.cpp:661-704 | every pixel of the w x h block holds its palette colour in channels red, 1 and blue; no other byte changes |
| `DxtBlocks.DecodeColorRow` | Engine/PLGraphics/Private/PLGraphics/Image/ImageData.cpp:691-703 | one more row of pixels holds its colours, and nothing outside the written pixels changes |
| `DxtBlocks.ColorsWritten` | Engine/PLGraphics/Private/PLGraphics/Image/ImageData.cpp:691-703 | a fully written block holds, at every pixel position, the three channels of that pixel's palette colour |
| `DxtBlocks.BlockColorsAt` | Engine/PLGraphics/Private/PLGraphics/Image/ImageData.cpp:690-703 | entry 4y + x of the block's colour list is the colour of pixel (x, y) |
| `DxtBlocks.DecodeDxt3AlphaBlock` | Engine/PLGraphics/Private/PLGraphics/Image/ImageData.cpp:710-723 | every pixel of the block holds its explicit alpha; no other byte changes |
| `DxtBlocks.DecodeDxt3AlphaRow` | Engine/PLGraphics/Private/PLGraphics/Image/ImageData.cpp:714-722 | one more row holds its alphas, nothing else changes |
| `DxtBlocks.AlphasWritten` | Engine/PLGraphics/Private/PLGraphics/Image/ImageData.cpp:714-722 | a fully written alpha block holds, at every pixel position, the alpha number 4y + x |
| `DxtBlocks.DecodeDxt5AlphaBlock` | Engine/PLGraphics/Private/PLGraphics/Image/ImageData.cpp:729-759 | every pixel of the block holds its interpolated alpha (code 4y + x); no other byte changes |
| `DxtBlocks.DecodeDxt5AlphaRow` | Engine/PLGraphics/Private/PLGraphics/Image/ImageData.cpp:737-758 | one more row holds its alphas, nothing else changes, and the bit accumulator has moved past the row's codes |
| `DxtImage.NumBlocksIsShift` | Engine/PLGraphics/Private/PLGraphics/Image/ImageData.cpp:635-643 | the number of block origins 0, 4, 8, ... below n is `(n + 3) >> 2` |
| `DxtImage.NumBlocksBounds` | Engine/PLGraphics/Private/PLGraphics/Image/ImageData.cpp:393-395 | the blocks along an edge cover it and the last one starts inside it |
| `DxtImage.CompressedSizeCountsBlocks` | Engine/PLGraphics/Private/PLGraphics/Image/ImageData.cpp:624-655 | the compressed size is planes x block rows x blocks per row x block bytes (8 for DXT1/LATC1, 16 for DXT3/DXT5/LATC2, 0 without compression) |
| `DxtImage.ClippedEdgeIsRest` | Engine/PLGraphics/Private/PLGraphics/Image/ImageData.cpp:400-401 | the clipped block edge at x is the number of pixels left, at most 4 |
| `DxtImage.PixelAtBounds` | Engine/PLGraphics/Private/PLGraphics/Image/ImageData.cpp:389-411 | with planes at least w x h x components bytes long, every pixel channel byte lies among the first w x h x components bytes of its own plane, hence inside the d planes and never among the bytes outside the pixels |
| `DxtImage.PixelAtInjective` | Engine/PLGraphics/Private/PLGraphics/Image/ImageData.cpp:389-411 | with planes at least w x h x components bytes long, distinct pixel channels occupy distinct bytes |
| `DxtImage.BlockPixel` | Engine/PLGraphics/Private/PLGraphics/Image/ImageData.cpp:397-404 | pixel (i, j) of the block at (x, y) is image pixel (x + i, y + j) |
| `DxtImage.BlockByte` | Engine/PLGraphics/Private/PLGraphics/Image/ImageData.cpp:661-752 | a block writes a byte into exactly channels 0 up to the format's channel count (3 for DXT1, 4 for DXT3/DXT5, 1 for LATC1, 2 for LATC2) and leaves the others |
| `DxtImage.DecodeBlock` | Engine/PLGraphics/Private/PLGraphics/Image/ImageData.cpp:385-546 | one block of each compression writes what `BlockByte` gives into each channel of each of its pixels and nothing outside the block |
| `DxtImage.DecodeDxt1Block` | Engine/PLGraphics/Private/PLGraphics/Image/ImageData.cpp:403-405 | a DXT1 block writes its colours into channels 0..2 |
| `DxtImage.DecodeDxt35Block` | Engine/PLGraphics/Private/PLGraphics/Image/ImageData.cpp:432-438 | a DXT3 or DXT5 block writes its alpha block into channel 3, then the colour block that follows into channels 0..2 |
| `DxtImage.DecodeLatc1Block` | Engine/PLGraphics/Private/PLGraphics/Image/ImageData.cpp:498-500 | a LATC1 block writes one alpha per 1-byte pixel |
| `DxtImage.DecodeLatc2Block` | Engine/PLGraphics/Private/PLGraphics/Image/ImageData.cpp:527-530 | a LATC2 block writes its second half into channel 0 and its first half into channel 1 of 2-byte pixels |
| `DxtImage.BlockInSource` | Engine/PLGraphics/Private/PLGraphics/Image/ImageData.cpp:624-655 | the block of every pixel lies inside the compressed-size bytes |
| `DxtImage.PixelOfBlock` | Engine/PLGraphics/Private/PLGraphics/Image/ImageData.cpp:397-405 | after its block is written, a pixel holds its decoded byte |
| `DxtImage.BlockStep` | Engine/PLGraphics/Private/PLGraphics/Image/ImageData.cpp:395-406 | decoding one block extends the decoded part of the image by exactly that block |
| `DxtImage.Decoded` | Engine/PLGraphics/Private/PLGraphics/Image/ImageData.cpp:385-546 | a channel the format does not write keeps its old byte |
| `DxtImage.DecodedChannels` | Engine/PLGraphics/Private/PLGraphics/Image/ImageData.cpp:385-546 | with the whole compressed image present, the channels a format writes get a byte independent of the old contents; the other channels keep theirs |
| `DxtImage.DecodedReadsCompressedSize` | Engine/PLGraphics/Private/PLGraphics/Image/ImageData.cpp:385-546 | decompression reads no compressed byte past the compressed size |
| `DxtImage.NothingDecoded` | Engine/PLGraphics/Private/PLGraphics/Image/ImageData.cpp:540-543 | without compression every byte stays as it was |
| `DxtImage.DecodeBlockRow` | Engine/PLGraphics/Private/PLGraphics/Image/ImageData.cpp:395-406 | the blocks of one block row are decoded and the source offset advances past them |
| `DxtImage.DecodePlane` | Engine/PLGraphics/Private/PLGraphics/Image/ImageData.cpp:393-407 | the block rows of one plane are decoded and the source offset advances past them |
| `DxtImage.DecodePlanes` | Engine/PLGraphics/Private/PLGraphics/Image/ImageData.cpp:389-411 | all planes are decoded, plane z starting z times the bytes per plane into the buffer, consuming the bytes of every block |
| `DxtImage.DecodeImage` | Engine/PLGraphics/Private/PLGraphics/Image/ImageData.cpp:370-548 | with planes the given bytes-per-plane apart: every channel of every pixel gets its decoded byte, every byte outside the pixel channels (the rest of each plane and everything after the last plane) is untouched, and exactly `CompressedSize` compressed bytes are consumed |
| `ImageData.BytesPerComponent` | Engine/PLGraphics/Private/PLGraphics/Image/ImageData.cpp:145-146 | a component takes 1 to 8 bytes |
| `ImageData.ComponentsPerPixel` | Engine/PLGraphics/Private/PLGraphics/Image/ImageData.cpp:377 | a pixel has 1 to 4 components |
| `ImageData.PlaneStride` | Engine/PLGraphics/Private/PLGraphics/Image/ImageData.cpp:389-411 | the d planes of `GetBytesPerPlane()` bytes fill the uncompressed buffer exactly; each plane has room for the one byte per component the decoders write; for byte components those bytes fill the plane |
| `ImageData.DataSizeHoldsPixels` | Engine/PLGraphics/Private/PLGraphics/Image/ImageData.cpp:124-150 | the uncompressed byte count has room for every component byte of every pixel |
| `ImageData.EmptySizes` | Engine/PLGraphics/Private/PLGraphics/Image/ImageData.cpp:156-174 | an empty image has no bytes, compressed or not |
| `ImageData.ImageData.Clear` | Engine/PLGraphics/Private/PLGraphics/Image/ImageData.cpp:156-174 | formats, compression, size and both byte counts go back to their defaults; buffers and palette are dropped |
| `ImageData.ImageData.CalculateCompressedImageBufferSize` | Engine/PLGraphics/Private/PLGraphics/Image/ImageData.cpp:624-655 | the compressed byte count becomes `CompressedSize` of the compression and size |
| `ImageData.ImageData.CreateImage` | Engine/PLGraphics/Private/PLGraphics/Image/ImageData.cpp:124-150 | a size with a non-positive dimension leaves the image cleared except for the compression; otherwise formats and size are recorded and both byte counts computed |
| `ImageData.ImageData.Decompress` | Engine/PLGraphics/Private/PLGraphics/Image/ImageData.cpp:370-548 | both buffers exist afterwards, the compressed one is unchanged, and the uncompressed one is the decompression of the compressed bytes with planes `GetBytesPerPlane()` bytes apart, whatever the data format |
| `ImageData.ImageData.SetCompression` | Engine/PLGraphics/Private/PLGraphics/Image/ImageData.cpp:253-272 | the same compression changes nothing; a new one drops the compressed buffer, decoding it first when it is the only copy, and recomputes its size |
| `ImageData.ImageData.TakeoverData` | Engine/PLGraphics/Private/PLGraphics/Image/ImageData.cpp:589-600 | the caller's pixels become the owned buffer and the compressed buffer goes |
| `ImageData.ImageData.ShareData` | Engine/PLGraphics/Private/PLGraphics/Image/ImageData.cpp:606-618 | the caller's pixels become a shared (not owned) buffer and the compressed buffer goes |
| `ImageData.ImageData.GetCompressedData` | Engine/PLGraphics/Private/PLGraphics/Image/ImageData.cpp:333-350 | the compressed buffer exists with its byte count, and the uncompressed buffer is dropped |
| `NumLen.NumLenOf` | Engine/PLCore/Private/PLCore/+Linux/PLCoreLinux.cpp:478-488 | the length `numlen` computes is at least one character |
| `NumLen.Digits` | Engine/PLCore/Private/PLCore/+Linux/PLCoreLinux.cpp:483-486 | a positive number has at least one digit |
| `NumLen.Quot10` | Engine/PLCore/Private/PLCore/+Linux/PLCoreLinux.cpp:485 | C's `num / 10` truncates toward zero: its magnitude is the magnitude divided by 10 |
| `NumLen.NumLenSigned` | Engine/PLCore/Private/PLCore/+Linux/PLCoreLinux.cpp:478-488 | the loop of the signed overloads returns `NumLenOf(num)` |
| `NumLen.NumLenUnsigned` | Engine/PLCore/Private/PLCore/+Linux/PLCoreLinux.cpp:489-498 | the loop of the unsigned overloads returns `NumLenOf(num)` |
| `NumLen.DigitsBounds` | Engine/PLCore/Private/PLCore/+Linux/PLCoreLinux.cpp:483-486 | a positive n has k digits where 10^(k-1) <= n < 10^k |
| `NumLen.DigitsUnique` | Engine/PLCore/Private/PLCore/+Linux/PLCoreLinux.cpp:483-486 | those bounds determine the digit count |
| `NumLen.DigitsAtMost` | Engine/PLCore/Private/PLCore/+Linux/PLCoreLinux.cpp:483-486 | a positive number below 10^k has at most k digits |
| `NumLen.NumLenIsLength` | Engine/PLCore/Private/PLCore/+Linux/PLCoreLinux.cpp:478-561 | for a non-zero number, the length less one for a minus sign is the k with 10^(k-1) <= magnitude < 10^k |
| `NumLen.NumLenInt32` | Engine/PLCore/Private/PLCore/+Linux/PLCoreLinux.cpp:478-488 | a 32-bit `int` takes at most 11 characters, and -2147483648 takes 11 |
| `NumLen.NumLenUint64` | Engine/PLCore/Private/PLCore/+Linux/PLCoreLinux.cpp:552-561 | a 64-bit unsigned value takes at most 20 characters |
| `CaseMapping.CLen` | Engine/PLCore/Private/PLCore/+Linux/PLCoreLinux.cpp:41-45 | the C length is the index of the first NUL |
| `CaseMapping.Mapped` | Engine/PLCore/Private/PLCore/+Linux/PLCoreLinux.cpp:41-45 | mapping a C string keeps its length |
| `CaseMapping.MapInPlace` | Engine/PLCore/Private/PLCore/+Linux/PLCoreLinux.cpp:41-45 | the pointer walk turns the array into `Mapped` of its old contents |
| `CaseMapping.StrUpr` | Engine/PLCore/Private/PLCore/+Linux/PLCoreLinux.cpp:37-49 | returns its argument; null is left alone; otherwise the string is upper-cased in place |
| `CaseMapping.StrLwr` | Engine/PLCore/Private/PLCore/+Linux/PLCoreLinux.cpp:51-62 | the same with lower case |
| `CaseMapping.WcsUpr` | Engine/PLCore/Private/PLCore/+Linux/PLCoreLinux.cpp:1112-1124 | the same for wide strings, upper case |
| `CaseMapping.WcsLwr` | Engine/PLCore/Private/PLCore/+Linux/PLCoreLinux.cpp:1125-1136 | the same for wide strings, lower case |
| `CaseMapping.UpperChangesOnlyLetters` | Engine/PLCore/Private/PLCore/+Linux/PLCoreLinux.cpp:43 | upper-casing changes exactly the lower-case letters, into their partners, and never yields NUL |
| `CaseMapping.LowerChangesOnlyLetters` | Engine/PLCore/Private/PLCore/+Linux/PLCoreLinux.cpp:57 | lower-casing changes exactly the upper-case letters, into their partners, and never yields NUL |
| `CaseMapping.CaseRoundTrip` | Engine/PLCore/Private/PLCore/+Linux/PLCoreLinux.cpp:37-62 | the two mappings undo each other on letters |
| `CaseMapping.MappedKeepsLength` | Engine/PLCore/Private/PLCore/+Linux/PLCoreLinux.cpp:37-62 | mapping keeps the length, the terminator and the bytes after it |
| `CaseMapping.MappedIdempotent` | Engine/PLCore/Private/PLCore/+Linux/PLCoreLinux.cpp:37-62 | mapping twice with an idempotent mapping is mapping once |
| `CaseMapping.CaseMappingIdempotent` | Engine/PLCore/Private/PLCore/+Linux/PLCoreLinux.cpp:37-62 | upper-casing (lower-casing) twice is doing it once |
| `CaseMapping.UpperThenLower` | Engine/PLCore/Private/PLCore/+Linux/PLCoreLinux.cpp:37-62 | upper-casing then lower-casing is lower-casing |
| `Utf8.OctetCount` | Engine/PLCore/Private/PLCore/+Linux/PLCoreLinux.cpp:959-980 | at most 6, and 0 exactly for a byte that cannot lead: a continuation byte 10xxxxxx, 0xFE or 0xFF |
| `Utf8.Decode` | Engine/PLCore/Private/PLCore/+Linux/PLCoreLinux.cpp:957-999 | a decoded character consumes 1 to 6 bytes, all present |
| `Utf8.Utf8ToUcs4` | Engine/PLCore/Private/PLCore/+Linux/PLCoreLinux.cpp:946-1000 | the imperative decoder returns `Decode(s)`: NULL for a bad lead or continuation byte, else the value and how far the pointer moved |
| `Utf8.ReadContinuations` | Engine/PLCore/Private/PLCore/+Linux/PLCoreLinux.cpp:982-993 | after a multi-octet lead byte, the continuation loop (6 bits per byte 10xxxxxx, NULL on any other byte) returns `Decode(s)` |
| `Utf8.Mbrtowc` | Engine/PLCore/Private/PLCore/+Linux/PLCoreLinux.cpp:1001-1010 | the count of bytes consumed, or (size_t)-1 for a malformed sequence; the character is stored only on success |
| `Utf8.DecodeAscii` | Engine/PLCore/Private/PLCore/+Linux/PLCoreLinux.cpp:959-961 | a byte below 0x80 decodes to itself and takes one byte |
| `Utf8.DecodeSucceeds` | Engine/PLCore/Private/PLCore/+Linux/PLCoreLinux.cpp:957-999 | decoding succeeds exactly when the lead can lead and the announced continuation bytes follow it |
| `Utf8.DecodeBound` | Engine/PLCore/Private/PLCore/+Linux/PLCoreLinux.cpp:982-993 | the value has 5n + 1 bits for n octets (7 for one), so it fits in 31 bits |
| `Utf8.Encode` | Engine/PLCore/Private/PLCore/+Linux/PLCoreLinux.cpp:957-999 | the RFC 2279 encoding of a value in n octets has n bytes |
| `Utf8.DecodeEncode` | Engine/PLCore/Private/PLCore/+Linux/PLCoreLinux.cpp:957-999 | decoding undoes encoding: the encoding of v in n octets, followed by anything, decodes to v in n bytes |
| `Utf8.DecodeEncodeMulti` | Engine/PLCore/Private/PLCore/+Linux/PLCoreLinux.cpp:962-997 | the multi-octet case of the round trip: a value that fits n = 2..6 octets comes back with n bytes consumed |
| `WideCompare.Stop` | Engine/PLCore/Private/PLCore/+Linux/PLCoreLinux.cpp:1146-1149 | the first position from i on where the do-while loop stops, or the bound |
| `WideCompare.LowerC` | Engine/PLCore/Private/PLCore/+Linux/PLCoreLinux.cpp:1147-1148 | the lowered C string has the C length |
| `WideCompare.CaseCmp` | Engine/PLCore/Private/PLCore/+Linux/PLCoreLinux.cpp:1143-1151 | a nonzero result means the strings differ once lower-cased |
| `WideCompare.WcsCaseCmp` | Engine/PLCore/Private/PLCore/+Linux/PLCoreLinux.cpp:1143-1151 | the loop returns `CaseCmp`: the lowered difference at the first position where the strings differ or both end |
| `WideCompare.StopsBeforeEnd` | Engine/PLCore/Private/PLCore/+Linux/PLCoreLinux.cpp:1146-1149 | the walk never passes the terminator of either string |
| `WideCompare.CaseCmpZeroIff` | Engine/PLCore/Private/PLCore/+Linux/PLCoreLinux.cpp:1143-1151 | `wcscasecmp` is 0 exactly when the strings are equal after `towlower` |
| `WideCompare.CaseCmpAntisymmetric` | Engine/PLCore/Private/PLCore/+Linux/PLCoreLinux.cpp:1143-1151 | swapping the arguments negates the result |
| `WideCompare.CaseCmpIgnoresCase` | Engine/PLCore/Private/PLCore/+Linux/PLCoreLinux.cpp:1143-1151 | upper-casing either argument first does not change the result |
| `WideCompare.NStopInBounds` | Engine/PLCore/Private/PLCore/+Linux/PLCoreLinux.cpp:1153-1167 | over strings readable for n characters, the walk stops inside both strings or runs all n characters |
| `WideCompare.NCaseCmp` | Engine/PLCore/Private/PLCore/+Linux/PLCoreLinux.cpp:1153-1167 | n = 0 gives 0; a nonzero result comes from a lowered difference within the first n characters |
| `WideCompare.WcsNCaseCmp` | Engine/PLCore/Private/PLCore/+Linux/PLCoreLinux.cpp:1153-1167 | the corrected loop returns `NCaseCmp`: 0 when n is 0 or no stop falls within n characters, else the lowered difference, reading only below n |
| `WideCompare.NCaseCmpAsWritten` | Engine/PLCore/Private/PLCore/+Linux/PLCoreLinux.cpp:1153-1167 | as written, n of 0 or 1 always gives 0, and a nonzero result comes from a lowered difference within the first n - 1 characters |
| `WideCompare.WcsNCaseCmpAsWritten` | Engine/PLCore/Private/PLCore/+Linux/PLCoreLinux.cpp:1153-1167 | the loop as written returns `NCaseCmpAsWritten`, reading only below n |
| `WideCompare.NCaseCmpZeroWhenPrefixAgrees` | Engine/PLCore/Private/PLCore/+Linux/PLCoreLinux.cpp:1153-1167 | n = 0 gives 0, and so do first n characters that agree case-insensitively |
| `WideCompare.NCaseCmpAgreesWithCaseCmp` | Engine/PLCore/Private/PLCore/+Linux/PLCoreLinux.cpp:1153-1167 | with n past the terminator of either string, `wcsncasecmp` is `wcscasecmp` |
| `WideCompare.NCaseCmpAsWrittenMissesLastCharacter` | Engine/PLCore/Private/PLCore/+Linux/PLCoreLinux.cpp:1160-1161 | as written, "a" and "b" compare equal with n = 1 |
| `WideCompare.NCaseCmpAsWrittenIsShifted` | Engine/PLCore/Private/PLCore/+Linux/PLCoreLinux.cpp:1153-1167 | the written comparison with n + 1 is the intended one with n when the strings part before character n, and 0 otherwise |
| `WideToUmax.DigitValue` | Engine/PLCore/Private/PLCore/+Linux/PLCoreLinux.cpp:1248-1255 | the value of a digit character, at most 36 (36 for a character that is no digit) |
| `WideToUmax.SkipSpace` | Engine/PLCore/Private/PLCore/+Linux/PLCoreLinux.cpp:1217-1219 | the first character from i on that is not white space |
| `WideToUmax.DigitEnd` | Engine/PLCore/Private/PLCore/+Linux/PLCoreLinux.cpp:1242-1265 | the end of the run of digits in the base |
| `WideToUmax.SignEnd` | Engine/PLCore/Private/PLCore/+Linux/PLCoreLinux.cpp:1220-1227 | skipping an optional '-' or '+' stays within the string |
| `WideToUmax.ParseSubject` | Engine/PLCore/Private/PLCore/+Linux/PLCoreLinux.cpp:1216-1235 | the subject (after white space, sign and any 0x prefix, with the base settled) starts within the string |
| `WideToUmax.Strtoumax` | Engine/PLCore/Private/PLCore/+Linux/PLCoreLinux.cpp:1205-1277 | the converted value never exceeds `UINTMAX_MAX` and the end lies within the string; the lemmas below state the error, overflow and success cases |
| `WideToUmax.Wcstoumax` | Engine/PLCore/Private/PLCore/+Linux/PLCoreLinux.cpp:1205-1277 | the imperative conversion returns `Strtoumax` |
| `WideToUmax.ScanSubject` | Engine/PLCore/Private/PLCore/+Linux/PLCoreLinux.cpp:1216-1235 | the subject scan ends where `ParseSubject` says |
| `WideToUmax.SkipWhiteSpace` | Engine/PLCore/Private/PLCore/+Linux/PLCoreLinux.cpp:1216-1219 | the do-while loop stops one past the first non-space character |
| `WideToUmax.ReadDigits` | Engine/PLCore/Private/PLCore/+Linux/PLCoreLinux.cpp:1240-1265 | the loop ends just past the run of digits; no digit gives 0, a run worth more than `UINTMAX_MAX` gives -1, otherwise the value of the run |
| `WideToUmax.CutoffTest` | Engine/PLCore/Private/PLCore/+Linux/PLCoreLinux.cpp:1240-1241 | the `cutoff`/`cutlim` test fires exactly when acc x base + c exceeds `UINTMAX_MAX` |
| `WideToUmax.OverflowStep` | Engine/PLCore/Private/PLCore/+Linux/PLCoreLinux.cpp:1256-1264 | one turn of the digit loop, in terms of the value read so far |
| `WideToUmax.EndPastLastDigit` | Engine/PLCore/Private/PLCore/+Linux/PLCoreLinux.cpp:1274-1275 | the end pointer follows a run of digits and points at a non-digit, or is the start when nothing converts |
| `WideToUmax.BadBase` | Engine/PLCore/Private/PLCore/+Linux/PLCoreLinux.cpp:1237-1238 | a base outside 2..36 converts nothing |
| `WideToUmax.Format` | Engine/PLCore/Private/PLCore/+Linux/PLCoreLinux.cpp:1242-1265 | the digits of v in a base, with no leading zero, all digits in that base |
| `WideToUmax.ValueFormat` | Engine/PLCore/Private/PLCore/+Linux/PLCoreLinux.cpp:1242-1265 | the value of the formatted digits is the number |
| `WideToUmax.StrtoumaxFormat` | Engine/PLCore/Private/PLCore/+Linux/PLCoreLinux.cpp:1205-1277 | white space, an optional '-', the digits of a 64-bit value and a terminator convert back to that value, with the end at the terminator |
| `ImagePalette.RoundedSize` | Engine/PLGraphics/Private/PLGraphics/Image/ImagePalette.cpp:98-102 | the size is a multiple of 256 in [n, n + 256), and 0 for n = 0 |
| `ImagePalette.RoundedSizeIsLeast` | Engine/PLGraphics/Private/PLGraphics/Image/ImagePalette.cpp:98-102 | it is the least multiple of 256 that holds n |
| `ImagePalette.RoundedSizeExact` | Engine/PLGraphics/Private/PLGraphics/Image/ImagePalette.cpp:98-102 | it equals n exactly for multiples of 256 |
| `ImagePalette.SizeAfterResize` | Engine/PLGraphics/Private/PLGraphics/Image/ImagePalette.cpp:174-208 | `Resize` never shrinks; for n > 0 the size holds n; n = 0 keeps the size |
| `ImagePalette.Zeros` | Engine/PLGraphics/Private/PLGraphics/Image/ImagePalette.cpp:106 | k bytes, all zero |
| `ImagePalette.AsWrittenStorage` | Engine/PLGraphics/Private/PLGraphics/Image/ImagePalette.cpp:149-164 | as written, the storage never shrinks and holds at least `index` colours (not `index + 1`) after a new index |
| `ImagePalette.SetColorOverrunsExactly` | Engine/PLGraphics/Private/PLGraphics/Image/ImagePalette.cpp:149-164 | as written, `SetColor` writes outside the buffer for a new index that is a positive multiple of 256 not below the size |
| `ImagePalette.SetColorOverrunExample` | Engine/PLGraphics/Private/PLGraphics/Image/ImagePalette.cpp:152-160 | as written, colour 256 of a full 256-colour palette is written at bytes 768..770 of a 768-byte buffer |
| `ImagePalette.ImagePalette.constructor` | Engine/PLGraphics/Private/PLGraphics/Image/ImagePalette.cpp:44-47 | a new palette has no buffer, no storage and no colours, the state the copy constructor starts from |
| `ImagePalette.ImagePalette.Copy` | Engine/PLGraphics/Private/PLGraphics/Image/ImagePalette.cpp:44-61 | a fresh buffer with the source's size, colour count and bytes, or an empty palette when the source has no storage |
| `ImagePalette.ImagePalette.Clear` | Engine/PLGraphics/Private/PLGraphics/Image/ImagePalette.cpp:69-70 | the storage is released: no buffer, size and colours 0 |
| `ImagePalette.ImagePalette.AssignAsWritten` | Engine/PLGraphics/Private/PLGraphics/Image/ImagePalette.cpp:67-85 | as written, assignment copies another palette but empties a palette assigned to itself |
| `ImagePalette.ImagePalette.Assign` | Engine/PLGraphics/Private/PLGraphics/Image/ImagePalette.cpp:67-85 | assignment with a self-assignment guard: an equal copy of the source, and `p = p` changes nothing |
| `ImagePalette.ImagePalette.Create` | Engine/PLGraphics/Private/PLGraphics/Image/ImagePalette.cpp:91-109 | n > 0 gives the rounded size, n colours and all bytes zero; n = 0 leaves the palette empty |
| `ImagePalette.ImagePalette.Resize` | Engine/PLGraphics/Private/PLGraphics/Image/ImagePalette.cpp:174-208 | reallocates only to grow, keeps the old bytes and zero-fills the tail; the colour count becomes n even when smaller; n = 0 changes nothing |
| `ImagePalette.ImagePalette.SetColor` | Engine/PLGraphics/Private/PLGraphics/Image/ImagePalette.cpp:149-164 | corrected: grows to index + 1 colours when needed and writes the three bytes of the colour inside the buffer, keeping all others |
| `ImagePalette.CopyBytes` | Engine/PLGraphics/Private/PLGraphics/Image/ImagePalette.cpp:59 | the first k bytes are copied and the rest are kept |
| `ImagePalette.SelfAssignmentEmpties` | Engine/PLGraphics/Private/PLGraphics/Image/ImagePalette.cpp:67-85 | a one-colour palette assigned to itself as written ends with no colours |
| `Loadables.Added` | Engine/PLCore/Private/PLCore/Tools/LoadableManager.cpp:182-198 | x is in the result, appended at the end only when it was absent |
| `Loadables.Reordered` | Engine/PLCore/Private/PLCore/Tools/LoadableManager.cpp:219-239 | the reorder keeps the length |
| `Loadables.Filter` | Engine/PLCore/Private/PLCore/Tools/LoadableManager.cpp:75-88 | no longer than the list, and holding exactly the elements that pass |
| `Loadables.AddedKeepsNoDups` | Engine/PLCore/Private/PLCore/Tools/LoadableManager.cpp:182-198 | registering never creates a duplicate |
| `Loadables.Removed` | Engine/PLCore/Private/PLCore/Tools/LoadableManager.cpp:253-276 | removing a present entry shortens the list by one, an absent one leaves its length, and nothing new appears |
| `Loadables.RemovedMultiset` | Engine/PLCore/Private/PLCore/Tools/LoadableManager.cpp:253-276 | removal takes out exactly one copy of a present entry |
| `Loadables.RemovedFromNoDups` | Engine/PLCore/Private/PLCore/Tools/LoadableManager.cpp:253-276 | in a list without duplicates, the entry is gone for good and every other entry stays |
| `Loadables.ReorderSteps` | Engine/PLCore/Private/PLCore/Tools/LoadableManager.cpp:227-236 | `RemoveAtIndex`, `ReplaceAtIndex` and `AddAtIndex` together give the reorder |
| `Loadables.ReorderedPermutes` | Engine/PLCore/Private/PLCore/Tools/LoadableManager.cpp:219-239 | the reorder is a permutation |
| `Loadables.ReorderedKeepsNoDups` | Engine/PLCore/Private/PLCore/Tools/LoadableManager.cpp:219-239 | the reorder keeps the list free of duplicates |
| `Loadables.ReorderedPlaces` | Engine/PLCore/Private/PLCore/Tools/LoadableManager.cpp:219-239 | first ends no later than second; when it was behind, it takes second's old index and second follows it |
| `Loadables.ReorderedIdempotent` | Engine/PLCore/Private/PLCore/Tools/LoadableManager.cpp:219-239 | asking again for the same priority changes nothing |
| `Loadables.ReorderedKeepsOthers` | Engine/PLCore/Private/PLCore/Tools/LoadableManager.cpp:219-239 | every other entry keeps its relative order |
| `Loadables.LoadableManager.constructor` | Engine/PLCore/Private/PLCore/Tools/LoadableManager.cpp:482-498 | no base directories at first |
| `Loadables.LoadableManager.GetTypesByExtension` | Engine/PLCore/Private/PLCore/Tools/LoadableManager.cpp:75-88 | appends, in registration order, exactly the types with a loader for the extension, keeping what the list held |
| `Loadables.LoadableManager.GetLoadersByExtension` | Engine/PLCore/Private/PLCore/Tools/LoadableManager.cpp:94-107 | appends, in registration order, exactly the loaders for the extension, keeping what the list held |
| `Loadables.LoadableManager.IsBaseDir` | Engine/PLCore/Private/PLCore/Tools/LoadableManager.cpp:161-176 | true exactly when the corrected path is registered; nothing changes |
| `Loadables.LoadableManager.AddBaseDir` | Engine/PLCore/Private/PLCore/Tools/LoadableManager.cpp:182-198 | always true; the corrected path is appended unless present |
| `Loadables.LoadableManager.SetBaseDirPriority` | Engine/PLCore/Private/PLCore/Tools/LoadableManager.cpp:204-247 | identical arguments succeed at once; otherwise success exactly when both corrected paths are registered, with the list reordered, and no change on failure |
| `Loadables.LoadableManager.RemoveBaseDir` | Engine/PLCore/Private/PLCore/Tools/LoadableManager.cpp:253-276 | true exactly when the corrected path was registered; the list loses that entry |
| `VertexBuffers.SizeOf` | Plugins/PLRendererOpenGLES/src/VertexBuffer.cpp:234-236 | `m_nVertexSize * nElements` as a `uint32` is below 2^32 |
| `VertexBuffers.UsageApi` | Plugins/PLRendererOpenGLES/src/VertexBuffer.cpp:240-253 | a GL hint exists exactly for static, dynamic and write-only usage |
| `VertexBuffers.OffsetOf` | Plugins/PLRendererOpenGLES/src/VertexBuffer.cpp:347-351 | after the reset and refill, a slot holds the offset of an attribute for it, and -1 when none feeds it |
| `VertexBuffers.OffsetOfPresent` | Plugins/PLRendererOpenGLES/src/VertexBuffer.cpp:347-351 | with non-negative offsets, a slot is usable exactly when an attribute feeds it |
| `VertexBuffers.AddressInside` | Plugins/PLRendererOpenGLES/src/VertexBuffer.cpp:110-127 | the arithmetic step behind `GetData`'s bound: index x vertex size + offset is below elements x vertex size when the index is below the element count and the offset below the vertex size |
| `VertexBuffers.LockStep` | Plugins/PLRendererOpenGLES/src/VertexBuffer.cpp:386-434 | corrected lock: no store gives null with nothing changed; a locked buffer nests and returns the same pointer; a null result leaves the count as it was |
| `VertexBuffers.UnlockStep` | Plugins/PLRendererOpenGLES/src/VertexBuffer.cpp:442-473 | fails on an unlocked buffer; decrements the count; the last unlock clears the pointer and read-only flag and marks for upload only a writable lock with a VBO and a copy |
| `VertexBuffers.ForceUnlocked` | Plugins/PLRendererOpenGLES/src/VertexBuffer.cpp:281 | the count drops to 0 and the pointer to null |
| `VertexBuffers.LockKeepsConsistent` | Plugins/PLRendererOpenGLES/src/VertexBuffer.cpp:386-473 | locking and unlocking keep "locked exactly when the count is positive, on the client-side copy" |
| `VertexBuffers.LockUnlockRoundTrip` | Plugins/PLRendererOpenGLES/src/VertexBuffer.cpp:386-473 | a successful first lock undone by one unlock leaves the buffer unlocked, with the upload flag set for a writable lock of a VBO |
| `VertexBuffers.NestedLockUnlock` | Plugins/PLRendererOpenGLES/src/VertexBuffer.cpp:392-395 | a nested lock undone by one unlock restores the state |
| `VertexBuffers.LockStepAsWritten` | Plugins/PLRendererOpenGLES/src/VertexBuffer.cpp:386-434 | as written, a lock raises the count by at most one, and a lock that returns a pointer raises it by one and records that pointer |
| `VertexBuffers.LockAsWrittenDiffersOnlyOnLeaks` | Plugins/PLRendererOpenGLES/src/VertexBuffer.cpp:386-434 | the written and corrected locks differ only where the written one returns null with a raised count |
| `VertexBuffers.LockAsWrittenLeaks` | Plugins/PLRendererOpenGLES/src/VertexBuffer.cpp:393-422 | as written, an unknown flag with a client copy, or a read-only lock of a VBO-only buffer, returns null with the count at 1 |
| `VertexBuffers.LeakKeepsBufferLocked` | Plugins/PLRendererOpenGLES/src/VertexBuffer.cpp:386-473 | after such a leak, a lock and its unlock leave the buffer locked and never mark it for upload; corrected, they unlock it |
| `VertexBuffers.VertexBuffer.constructor` | Plugins/PLRendererOpenGLES/src/VertexBuffer.cpp:91-104 | nothing allocated, unlocked, every offset -1 |
| `VertexBuffers.VertexBuffer.GetData` | Plugins/PLRendererOpenGLES/src/VertexBuffer.cpp:110-127 | non-null exactly when locked, the index, channel and semantic are in range and the offset is set; then the locked address plus index x vertex size plus offset; when the table holds the attributes' offsets, each below the vertex size, and the size does not wrap, that address lies inside the locked buffer's `size` bytes |
| `VertexBuffers.VertexBuffer.BindAndUpdate` | Plugins/PLRendererOpenGLES/src/VertexBuffer.cpp:60-81 | a copy marked for upload is uploaded and the mark cleared |
| `VertexBuffers.VertexBuffer.Lock` | Plugins/PLRendererOpenGLES/src/VertexBuffer.cpp:386-434 | the lock state becomes `LockStep` of the old one |
| `VertexBuffers.VertexBuffer.LockAsWritten` | Plugins/PLRendererOpenGLES/src/VertexBuffer.cpp:386-434 | the lock state becomes `LockStepAsWritten` of the old one |
| `VertexBuffers.VertexBuffer.Unlock` | Plugins/PLRendererOpenGLES/src/VertexBuffer.cpp:442-473 | the lock state becomes `UnlockStep` of the old one |
| `VertexBuffers.VertexBuffer.ForceUnlock` | Plugins/PLRendererOpenGLES/src/VertexBuffer.cpp:281 | the lock state becomes `ForceUnlocked` of the old one |
| `VertexBuffers.VertexBuffer.SetupOffsets` | Plugins/PLRendererOpenGLES/src/VertexBuffer.cpp:347-351 | every slot of the table holds `OffsetOf` the attributes |
| `VertexBuffers.VertexBuffer.ResetOffsets` | Plugins/PLRendererOpenGLES/src/VertexBuffer.cpp:347-348 | every slot of the offset table becomes -1 |
| `VertexBuffers.VertexBuffer.SetUsageApi` | Plugins/PLRendererOpenGLES/src/VertexBuffer.cpp:240-253 | the GL usage hint becomes `UsageApi` of the usage; known exactly for a usage other than unknown; nothing else changes |
| `VertexBuffers.VertexBuffer.DropStores` | Plugins/PLRendererOpenGLES/src/VertexBuffer.cpp:256-281 | the client copy survives only at the same size without losing management; a VBO survives only when the buffer stays in hardware; the buffer ends unlocked |
| `VertexBuffers.VertexBuffer.CreateStores` | Plugins/PLRendererOpenGLES/src/VertexBuffer.cpp:293-325 | fails exactly when GL does not size a requested VBO; otherwise a client copy exists without a VBO or when managed, and is marked for upload |
| `VertexBuffers.VertexBuffer.Clear` | Plugins/PLRendererOpenGLES/src/VertexBuffer.cpp:357-384 | false when nothing is allocated; otherwise no elements, size 0, usage unknown, no upload mark, all offsets -1, unlocked |
| `VertexBuffers.VertexBuffer.Reallocate` | Plugins/PLRendererOpenGLES/src/VertexBuffer.cpp:234-344 | false for a zero size, an unknown usage or a VBO that GL does not size; once size and usage are valid the size is vertex size x elements, the lock is released, a VBO exists exactly when GL sized one, and a client-side copy exists exactly when it was created for a software or managed buffer or an old copy of the same size survives (the whole store is stated on failure too); the read-only flag survives only on an unlocked buffer; the upload flag is set for a software or managed buffer on success, and on a GL failure keeps its value, raised only when `ForceUnlock` ends a writable lock of a buffer with both stores |
| `VertexBuffers.VertexBuffer.Allocate` | Plugins/PLRendererOpenGLES/src/VertexBuffer.cpp:231-355 | as `Reallocate` when the size, usage or management change, so an unknown usage then fails with the GL usage hint zeroed and a zero size fails with nothing changed; on success the offset table is reset and refilled from the attributes |
| `Sequences.IndexOf` | Engine/PLCore/Public/PLCore/Container/ResourceManager.h:289-299 | the first index holding x |
| `Sequences.Without` | Engine/PLCore/Public/PLCore/Container/ResourceManager.h:147-157 | exactly the entries outside the removed set |
| `Sequences.Only` | Engine/PLCore/Public/PLCore/Container/ResourceManager.h:147-157 | exactly the entries inside the removed set |
| `Sequences.WithoutOnlySplit` | Engine/PLCore/Public/PLCore/Container/ResourceManager.h:147-157 | kept and removed entries together are the old list, as a multiset and in number |
| `Sequences.WithoutKeepsNoDups` | Engine/PLCore/Public/PLCore/Container/ResourceManager.h:399 | removal keeps the list free of duplicates |
| `Sequences.WithoutOne` | Engine/PLCore/Public/PLCore/Container/ResourceManager.h:132-145 | removing one member of a duplicate-free list shortens it by one and removes it for good |
| `Sequences.Moved` | Engine/PLCore/Public/PLCore/Container/ResourceManager.h:301-313 | a move keeps the length |
| `Sequences.MovedPermutes` | Engine/PLCore/Public/PLCore/Container/ResourceManager.h:301-313 | a move is a permutation that puts the entry at its target and keeps the others in order |
| `Sequences.MovedBack` | Engine/PLCore/Public/PLCore/Container/ResourceManager.h:301-313 | moving in place changes nothing, and moving back undoes a move |
| `Registries.NamesWithoutIs` | Engine/PLCore/Public/PLCore/Container/ResourceManager.h:399-400 | a name stays in the index exactly when its member stays |
| `Registries.Split` | Engine/PLCore/Public/PLCore/Container/ResourceManager.h:147-157 | the loop splits the list into kept and removed members, in order |
| `Registries.RegisterKeeps` | Engine/PLCore/Public/PLCore/Container/ResourceManager.h:407-418 | adding a new member under a free name keeps list and index one to one |
| `Registries.UnregisterKeeps` | Engine/PLCore/Public/PLCore/Container/ResourceManager.h:420-434 | removing any set of members keeps list and index one to one |
| `Registries.UnregisterOne` | Engine/PLCore/Public/PLCore/Container/ResourceManager.h:420-434 | removing one member drops exactly its name from the index |
| `Registries.UnregisterAll` | Engine/PLCore/Public/PLCore/Container/ResourceManager.h:105-115 | removing every member empties list and index |
| `Registries.PermuteKeeps` | Engine/PLCore/Public/PLCore/Container/ResourceManager.h:301-313 | reordering the list keeps the correspondence |
| `Registries.RenameKeeps` | Engine/PLCore/Public/PLCore/Container/ResourceManager.h:349-368 | renaming a member to a free name keeps the correspondence |
| `Registries.NamesAtLeast` | Engine/PLCore/Public/PLCore/Container/ResourceManager.h:121-122 | exactly the names in use of at least a given length |
| `Registries.FreshName` | Engine/PLCore/Public/PLCore/Container/ResourceManager.h:121-122 | a non-empty name no member carries, extending the base name |
| `Resources.ResourceManager.constructor` | Engine/PLCore/Public/PLCore/Container/ResourceManager.h:341 | no resources and no standard resource |
| `Resources.ResourceManager.GetNumOfElements` | Engine/PLCore/Public/PLCore/Container/ResourceManager.h:205-212 | the number of resources |
| `Resources.ResourceManager.Create` | Engine/PLCore/Public/PLCore/Container/ResourceManager.h:117-131 | a known name returns its resource and changes nothing; otherwise a failing factory gives null, else a new resource under the name, or under an unused name when it is empty |
| `Resources.ResourceManager.LoadResource` | Engine/PLCore/Public/PLCore/Container/ResourceManager.h:219-236 | a loaded file name returns its resource with the count unchanged; otherwise a new resource under that name |
| `Resources.ResourceManager.Unregister` | Engine/PLCore/Public/PLCore/Container/ResourceManager.h:399-400 | the given resources leave list and index, in order, and the standard resource with them |
| `Resources.ResourceManager.Unload` | Engine/PLCore/Public/PLCore/Container/ResourceManager.h:132-145 | succeeds exactly for a member that is not protected, which is then removed and destroyed; otherwise nothing changes |
| `Resources.ResourceManager.UnloadUnused` | Engine/PLCore/Public/PLCore/Container/ResourceManager.h:147-157 | exactly the unused unprotected resources go, from the list, the name index and the standard resource, each with one removal event in list order; the survivors keep their order and their names; the count drops by the returned number |
| `Resources.ResourceManager.Clear` | Engine/PLCore/Public/PLCore/Container/ResourceManager.h:105-115 | always true; the deleted resources (all, or only the unprotected ones) leave the list, the name index and the standard resource, each with one removal event in list order; the kept protected resources keep their order and their names |
| `Resources.ResourceManager.GetStandard` | Engine/PLCore/Public/PLCore/Container/ResourceManager.h:177-188 | the standard resource, when there is one, is a member |
| `Resources.ResourceManager.SetStandard` | Engine/PLCore/Public/PLCore/Container/ResourceManager.h:190-203 | null clears it; a member becomes it; a non-member gives false and no change |
| `Resources.ResourceManager.GetByIndex` | Engine/PLCore/Public/PLCore/Container/ResourceManager.h:277-287 | null out of range, else the resource at the index |
| `Resources.ResourceManager.GetIndex` | Engine/PLCore/Public/PLCore/Container/ResourceManager.h:289-299 | negative exactly for a non-member; for a member, its first index, and `GetByIndex` of it gives the member back |
| `Resources.ResourceManager.GetByName` | Engine/PLCore/Public/PLCore/Container/ResourceManager.h:315-330 | null for an unknown name, else the member carrying that name |
| `Resources.ResourceManager.MoveResource` | Engine/PLCore/Public/PLCore/Container/ResourceManager.h:301-313 | the list becomes `Moved`, a permutation; the name index and the standard resource do not change |
| `Resources.ResourceManager.SetResourceName` | Engine/PLCore/Public/PLCore/Container/ResourceManager.h:349-368 | fails for a name in use or a non-member; otherwise re-keys the index under the new name |
| `Resources.ResourceManager.Add` | Engine/PLCore/Public/PLCore/Container/ResourceManager.h:407-418 | a new resource under a free name is appended and indexed; otherwise false and no change |
| `Resources.ResourceManager.Remove` | Engine/PLCore/Public/PLCore/Container/ResourceManager.h:420-434 | a member is unregistered without being destroyed; otherwise false and no change |
| `Resources.StandardWithout` | Engine/PLCore/Public/PLCore/Container/ResourceManager.h:397 | the standard resource survives exactly when it is not removed |
| `Parameters.ParameterManager.constructor` | Base/PLRenderer/include/PLRenderer/Material/ParameterManager.h:241 | no parameters and no events |
| `Parameters.ParameterManager.GetNumOfParameters` | Base/PLRenderer/include/PLRenderer/Material/ParameterManager.h:95-102 | the number of parameters |
| `Parameters.ParameterManager.IsParameter` | Base/PLRenderer/include/PLRenderer/Material/ParameterManager.h:263 | true exactly when some parameter carries the name |
| `Parameters.ParameterManager.GetParameter` | Base/PLRenderer/include/PLRenderer/Material/ParameterManager.h:119-129 | null out of range, else the parameter at the index |
| `Parameters.ParameterManager.GetParameterByName` | Base/PLRenderer/include/PLRenderer/Material/ParameterManager.h:131-141 | null exactly for an unknown name, else the parameter carrying it |
| `Parameters.ParameterManager.GetParameterValue` | Base/PLRenderer/include/PLRenderer/Material/ParameterManager.h:264-335 | the value of a named parameter of the asked data type, else nothing |
| `Parameters.ParameterManager.CreateParameter` | Base/PLRenderer/include/PLRenderer/Material/ParameterManager.h:104-117 | a known name returns its parameter and changes nothing; an unknown data type gives null and adds nothing; otherwise a new parameter with its initial value and one change event |
| `Parameters.ParameterManager.Destroy` | Base/PLRenderer/include/PLRenderer/Material/ParameterManager.h:217-227 | the given parameters leave list, index, types and values, each with one change event, in list order |
| `Parameters.ParameterManager.RemoveParameter` | Base/PLRenderer/include/PLRenderer/Material/ParameterManager.h:171-182 | false and no change out of range; otherwise that parameter leaves the list, the name index, the types and the values, one event fires, and every other parameter keeps its name, type and value |
| `Parameters.ParameterManager.RemoveParameterByName` | Base/PLRenderer/include/PLRenderer/Material/ParameterManager.h:184-195 | false and no change for an unknown name; otherwise that parameter leaves the list, the name index, the types and the values, one event fires, and every other parameter keeps its name, type and value |
| `Parameters.ParameterManager.RemoveAllParameters` | Base/PLRenderer/include/PLRenderer/Material/ParameterManager.h:197-201 | no parameters remain, and one event fires per removed parameter |
| `Parameters.ParameterManager.SetParameter` | Base/PLRenderer/include/PLRenderer/Material/ParameterManager.h:56-63 | a missing name is created first with the given type, so `IsParameter` holds after success; the value is set unless the data type differs; only that parameter's value (and, for a new one, its entry) changes, every type and every other value stays; each creation and value change fires an event; a refusal changes nothing |
| `Parameters.ParameterManager.AddParameterFromXMLElement` | Base/PLRenderer/include/PLRenderer/Material/ParameterManager.h:155-169 | false and nothing changed for an unreadable element, an unknown type, an empty name or a name in use; otherwise a new parameter with the element's name, type and value, two events (creation and value set), and nothing else changed |
| `Parameters.CreateKeepsDescribed` | Base/PLRenderer/include/PLRenderer/Material/ParameterManager.h:253-256 | a new parameter of a known type comes with its type and value |
| `Parameters.DestroyKeepsDescribed` | Base/PLRenderer/include/PLRenderer/Material/ParameterManager.h:253-256 | destroyed parameters take their types and values with them |

## Left out

- Files outside the core are not part of this model, and neither are the
  bodies of their functions.
  - `ImageBuffer` supplies the bytes per component, the components per pixel
    and `GetBytesPerPlane`. These are modelled as the functions
    `BytesPerComponent`, `ComponentsPerPixel` and `BytesPerPlane` (the data
    size of one plane), whose values are the usual ones.
  - `ImagePalette.ImagePalette.Clear`: its body is declared in the class
    header only. The model assumes it frees the buffer and zeroes the size
    and the colour count; `Create(0)` and `SelfAssignmentEmpties` rest on
    that.
  - `ImageData.ImageData.TakeoverData`: the reset of the shared flag comes
    from `DestroyBuffer`, whose body is not part of this model. The model
    assumes it clears `m_bDataShared` together with the pixel buffer, so that
    taken-over data is owned.
  - The `.inl`/`.cpp` bodies of `ResourceManager<AType>` and of
    `ParameterManager` are not part of this model. Their behaviour is taken
    from the documented contracts of the two headers.
  - The base-class `VertexBuffer` is not part of this model either. This
    affects `ForceUnlock` and the constants `NumOfSemantics`,
    `MaxPipelineChannels`, `Position` and `Binormal`, which become
    constructor parameters.
- Memory, GL and the clock:
  - OpenGL calls are opaque. `glSized` says whether GL sized a new VBO.
  - Vertex contents, `bKeepData` (the backup and restore copy) and the
    memory statistics are left out.
  - `BackupDeviceData`/`RestoreDeviceData`, `GetColor`/`SetColor` of the
    vertex buffer (floating point) and the timing statistics are left out.
- `ImageData` operations left out:
  - `Compress` is an unimplemented stub.
  - `CreateTestImage`, the copy constructor, `operator=` and `CopyData` are
    left out, and so are `SetPalette` and the read-only `GetData`.
- `ImageData.ImageData.Decompress` and `ImageData.ImageData.SetCompression`
  (when it decodes a compressed-only image) require `Decodable` of the
  compression and the components per pixel:
  - it excludes DXT1 with fewer than 3 components and DXT3/DXT5 with fewer
    than 4, where the source writes channels past the pixel;
  - it also demands exactly 1 component for LATC1 and exactly 2 for LATC2,
    although the source stays inside the image with more, since it walks
    those blocks with a pixel stride of 1 or 2 bytes (`ImageData.cpp:498`,
    `ImageData.cpp:527-528`).
- `DxtBlocks.Word16`, `DxtBlocks.LittleEndian` and `DxtBlocks.Dxt5Bits`
  read the block's 16-bit endpoints and index words and its 64-bit alpha
  word little-endian. The source reads them through `uint16`/`uint64`
  pointers in host byte order, so the decoders assume a little-endian host.
- `VertexBuffers.VertexBuffer.GetData` bounds the address by the buffer size
  only when the vertex size times the element count is below 2^32. Beyond
  that the `uint32` size wraps, and the address of a later vertex can lie
  past `m_nSize` in the source and in the model alike.
- `ImagePalette.GetColorIndex` and `RebuildColorIndex` are left out. They
  convert float colours through a hash map.
- `LoadableManager` URL handling is abstract. `Url(p).GetUrl()` and
  `Url(u).IsDirectory()` are constructor parameters. File and directory I/O,
  package scanning, the singleton and class-loading callbacks are left out,
  and so is `RemoveBaseDir(nNum)`.
- The printf family, `wcstof`, `_wtof`, `_wtoi`, `_wtol` and `mbtowc` of
  `PLCoreLinux.cpp` are left out.
- Locale-dependent `toupper`, `towlower` and `iswspace` follow the "C"
  locale.
- `Utf8.Mbrtowc`: the byte limit n and the conversion state are ignored,
  as the source ignores them.
- `ResourceManager`:
  - Protection, use and the resource factory live in classes not shown. They
    are parameters: `isProtected`, `isUnused` and `factoryOk`.
  - Destroying a resource is recorded in `removedEvents`.
  - Loading a file into the new resource is not modelled.
  - The auto-name for `Create("")` is "Resource" followed by underscores.
    The header promises only an unused name.
  - `Unload` and `Remove` also clear the standard resource when it is the
    removed one, so that the standard resource stays a member.
  - `GetManagerName`/`SetManagerName`, `Get`/`SetUnloadUnused`,
    `Init`/`DeInit`/`Update` and `operator=` are left out.
- `ParameterManager`:
  - The many `Get*`/`Set*` accessors are collapsed into `GetParameterValue`
    and `SetParameter` over an abstract value type `V`. A parameter of
    another data type refuses the set.
  - Parsing the XML element is abstract: `XmlParameter` holds what it yields.
  - `AddParametersToXMLElement`, `ReloadTextures`, `GetRendererContext` and
    texture loading are left out.
  - `OnParameterChange` is modelled only as the event list `events`.
- `VertexBuffers.VertexBuffer.Allocate` does not reallocate when the size,
  usage and management are unchanged.
- Byte counts are assumed below 2^32; the source computes them in `uint32`
  and they wrap beyond that:
  - `ImageData.ImageData.CreateImage` does not model the 32-bit wrap of
    `m_nDataSize` (`ImageData.cpp:137`); a 65536 x 65536 RGBA image has a
    count of 0 in the source and 2^34 here.
  - `ImageData.ImageData.CalculateCompressedImageBufferSize` does not model
    the 32-bit wrap of `m_nCompressedSize`.
  - `ImagePalette.ImagePalette.Resize` and `ImagePalette.ImagePalette.Create`
    do not model the wrap of `nSize * 3`.
  - `ImagePalette.ImagePalette.SetColor` does not model the wrap of
    `nIndex * 3`.
- `Parameters.Described` requires that every parameter has a type and a
  value. It does not require the converse, that every type and value
  belongs to a parameter.

## Findings

| source | as written | input that shows it | evidently intended | confidence | as-written member | corrected member |
|---|---|---|---|---|---|---|
| Engine/PLCore/Private/PLCore/+Linux/PLCoreLinux.cpp:1160-1161 | `wcsncasecmp` decrements n and returns 0 before comparing the n-th characters | `wcsncasecmp(L"a", L"b", 1)` returns 0 | the n-th characters are compared too, as the C library defines it | not executed | `WideCompare.NCaseCmpAsWrittenMissesLastCharacter` | `WideCompare.WcsNCaseCmp` |
| Engine/PLGraphics/Private/PLGraphics/Image/ImagePalette.cpp:152-153 | `SetColor` resizes to `nIndex` colours, not `nIndex + 1` | a full 256-colour palette, `SetColor(256, c)`: the storage stays 256 and bytes 768..770 are written past the 768-byte buffer; and `SetColor(5, c)` on an empty palette leaves 5 colours in use, the new one in slot 5 outside them | resize to `nIndex + 1` colours so that the written index is inside the storage | not executed | `ImagePalette.SetColorOverrunExample` | `ImagePalette.ImagePalette.SetColor` |
| Engine/PLGraphics/Private/PLGraphics/Image/ImagePalette.cpp:69-72 | `operator=` clears this palette before reading the source | `p = p` on a palette with one colour leaves it with none | assigning a palette to itself leaves it unchanged | not executed | `ImagePalette.SelfAssignmentEmpties` | `ImagePalette.ImagePalette.Assign` |
| Plugins/PLRendererOpenGLES/src/VertexBuffer.cpp:393-422 | `Lock` raises the lock count, then returns null on two paths without lowering it | an unlocked buffer with a client-side copy locked with an unknown flag, or a VBO-only buffer locked read-only: the count stays 1 | a lock that returns null leaves the count as it was | not executed | `VertexBuffers.LockAsWrittenLeaks` | `VertexBuffers.LockStep` |
