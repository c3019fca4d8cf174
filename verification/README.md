# VTF-Viewer core in Dafny

A model of the decoding core of VTF-Viewer, a viewer for Valve's texture
(`.vtf`) and material (`.vmt`) files, with proofs about it. It covers:

- **The VTF container** (`VtfFormat`, `VtfHeader`, `VtfLayout`, `VtfFile`):
  - the format catalogue: enumerator values, bits per pixel, display names and flag bits;
  - the packed 65-byte header as a byte-exact parser/encoder pair;
  - header validation in `Load`;
  - the frame-major, smallest-mip-first payload layout (`ComputeImageSize`, `ComputeMipmapOffset`);
  - the guarded `GetImageData` dispatch.
- **The S3TC block decoders** (`S3tc`, `BlockDecode`, `Raster`) for
  BC1 (DXT1) and BC3 (DXT5), as the code writes them:
  - RGB565 endpoints are widened by a plain left shift, with no bit replication;
  - DXT3 is decoded with the DXT5 algorithm.

  The pixel loops are one imperative method, proved against a pixel-wise
  pure definition. A ghost log shows each pixel of the mip is written
  exactly once and nothing past the raster is touched.
- **The raw converter** `ConvertToRGBA8888` (`Convert`), including its
  magenta fill for formats it does not handle.
- **The VMT text parser** (`Vmt`): `SkipWhitespace`, `ReadToken`,
  `ReadQuotedString`, `ParseNode`, `Parse`, the node tree, the
  case-insensitive `FindChild` and `GetBaseTexture`. `VmtWrite` adds a
  writer as the parser's partner: parsing what it writes gives back the
  tree, and every successfully parsed material can be written back.
- **The viewer's helpers**:
  - `VMTParser`'s parameter lookup and flattened parameter map (`VmtParser`);
  - `VTFReader`'s `getImage`, thumbnail mip selection and `getFormat` (`VtfReader`);
  - `PropertiesPanel::formatFlags` (`PropertiesPanel`).

Integers are unbounded.

- Bytes are the subset type `byte` of `int`, and header words are decoded little-endian.
- `W >> m` is `W / 2^m`.
- Flag words in `formatFlags` are `bv32`.
- `Load` and `Parse` work on the bytes or text of a file held in memory.

Two behaviours of the code that the model keeps as written:

- `ParseNode` reads the token `""` as an empty name and then stops, so the two quote characters are consumed.
- When `Load` rejects a header, it has already overwritten `header_`, and it leaves `loaded_` as it was.

## Model

| member | source | states |
|---|---|---|
| Bytes.DecodeEncodeLE | lib/VTFLib/VTFFormat.h:76-97 | reading back a little-endian word written in n bytes gives the value, for every value that fits |
| Bytes.EncodeDecodeLE | lib/VTFLib/VTFFormat.h:76-97 | writing back the value read from n bytes gives the same bytes |
| Bytes.EncodeLEInjective | lib/VTFLib/VTFFormat.h:76-97 | two values that fit in n bytes have the same n-byte encoding only when they are equal |
| VtfFormat.FormatOfCode | lib/VTFLib/VTFFormat.h:15-44 | every integer id maps to a format whose enumerator value is that id: an enumerator for -1 to 26, an unlisted id otherwise |
| VtfFormat.EnumeratorsInOrder | lib/VTFLib/VTFFormat.h:15-44 | the enumerators run consecutively from RGBA8888 = 0 to UVLX8888 = 26 |
| VtfFormat.FormatOfCodeOf | lib/VTFLib/VTFFormat.h:15-44 | the enumerator value of a format maps back to that format |
| VtfFormat.EnumeratorValues | lib/VTFLib/VTFFormat.h:15-44 | NONE = -1, RGBA8888 = 0, DXT1 = 13, DXT3 = 14, DXT5 = 15, DXT1_ONEBITALPHA = 20, UVLX8888 = 26 |
| VtfFormat.FormatOfWord | lib/VTFLib/VTFFile.cpp:41 | a header's 32-bit format word read as a format: 0xFFFFFFFF is NONE, and a word below 27 is the enumerator with that value |
| VtfFormat.Bpp | lib/VTFLib/VTFFormat.h:102-141 | the bit count is 0 exactly for NONE and unlisted ids, and is otherwise one of 4, 8, 16, 24, 32 or 64 |
| VtfFormat.BppFromLayout | lib/VTFLib/VTFFormat.h:102-141 | an uncompressed format's bit count is the sum of the channel widths its name spells out; a block format's bit count times 16 texels is its block size in bits; every other id has 0 |
| VtfFormat.NameUnknown | lib/VTFLib/VTFFormat.h:143-172 | the display name is "UNKNOWN" exactly for NONE, the two BLUESCREEN variants and unlisted ids |
| VtfFormat.NamedFormatsHaveBpp | lib/VTFLib/VTFFormat.h:102-172 | every named format has a positive bit count; the BLUESCREEN variants are 24-bit but unnamed |
| VtfFormat.FlagsAreDistinctBits | lib/VTFLib/VTFFormat.h:47-73 | each texture flag is a single bit, and the bits rise strictly from POINTSAMPLE to BORDER, so no two coincide |
| VtfHeader.Packed | lib/VTFLib/VTFFormat.h:9-97 | the header fields lie back to back from offset 0 and end at byte 65 |
| VtfHeader.FieldAt | lib/VTFLib/VTFFormat.h:76-97 | every one of the 65 header bytes belongs to a field |
| VtfHeader.FieldAtUnique | lib/VTFLib/VTFFormat.h:76-97 | a byte belongs to exactly one field |
| VtfHeader.ParseEncodeHeader | lib/VTFLib/VTFFormat.h:76-97 | parsing the encoding of a header gives back the header |
| VtfHeader.EncodeParseHeader | lib/VTFLib/VTFFormat.h:76-97 | encoding a parsed 65-byte block gives back the bytes |
| VtfHeader.EncodedSlice | lib/VTFLib/VTFFormat.h:76-97 | each field's bytes of an encoded header are the field's own encoding |
| VtfHeader.FieldBytesDetermineHeader | lib/VTFLib/VTFFormat.h:76-97 | two headers with the same bytes in every field are equal |
| VtfLayout.MipDimHalves | lib/VTFLib/VTFFile.cpp:38-39 | each mip's extent is half the previous one, rounded down and clamped at 1, so the extents never grow |
| VtfLayout.MipDimEnds | lib/VTFLib/VTFFile.cpp:38-39 | mip 0 of a non-empty extent is the full extent, and once 2^m reaches the extent, mip m is 1 wide |
| VtfLayout.BlocksAcross | lib/VTFLib/VTFFile.cpp:69-74 | the number of 4-texel blocks is the ceiling of the extent divided by 4 |
| VtfLayout.ImageSizeBounds | lib/VTFLib/VTFFile.cpp:64-79 | the encoded size of a mip is at least its pixels times the bit count, in bytes; for a non-empty image it is zero exactly when the format has no bit count |
| VtfLayout.BlockFootprintCovers | lib/VTFLib/VTFFile.cpp:68-75 | whole 4x4 blocks never take fewer bytes than the texels they cover, and a non-empty image has at least one block |
| VtfLayout.BlockSizeMatchesBpp | lib/VTFLib/VTFFile.cpp:64-79 | for block-aligned images the block formula and the bits-per-pixel formula agree |
| VtfLayout.OffsetStep | lib/VTFLib/VTFFile.cpp:94-100 | within a frame, the offset of mip m is the offset of mip m+1 plus the size of mip m+1 |
| VtfLayout.FramesBackToBack | lib/VTFLib/VTFFile.cpp:85-100 | mip 0 of a frame ends where the smallest mip of the next frame begins |
| VtfLayout.MipRangesOrdered | lib/VTFLib/VTFFile.cpp:81-103 | mips stored earlier (earlier frame, or smaller mip in the same frame) end before later ones begin, so no two mips overlap |
| VtfLayout.MipWithinFrames | lib/VTFLib/VTFFile.cpp:35-43 | every mip of every frame ends within frames times the frame size |
| VtfLayout.OffsetOfSmallestMip | lib/VTFLib/VTFFile.cpp:81-103 | the smallest mip of frame f sits at f times the frame size |
| VtfLayout.OffsetGrowsTowardMip0 | lib/VTFLib/VTFFile.cpp:94-100 | a larger mip sits strictly further in than the next smaller one exactly when the format has a bit count |
| VtfLayout.MipWithinPayload | lib/VTFLib/VTFFile.cpp:81-103 | every mip of every in-range frame lies inside the payload `Load` reads |
| VtfLayout.ComputeMipmapOffset | lib/VTFLib/VTFFile.cpp:81-103 | the two loops compute the frames-before sum plus the sizes of the smaller mips of this frame |
| VtfLayout.ComputeTotalSize | lib/VTFLib/VTFFile.cpp:34-43 | the double loop computes frames times the sum of all mip sizes |
| VtfLayout.PayloadStart | lib/VTFLib/VTFFile.cpp:45-54 | the payload starts at headerSize, and when the low-res format is not NONE it starts exactly ComputeImageSize(lowResWidth, lowResHeight, lowResFormat) bytes later |
| VtfFile.Fresh | lib/VTFLib/VTFFile.cpp:8-10 | a constructed texture is not loaded and its header is well formed |
| VtfFile.FreshIsZero | lib/VTFLib/VTFFile.cpp:8-10 | every number in a fresh header reads 0 |
| VtfFile.Load | lib/VTFLib/VTFFile.cpp:15-62 | loading only ever sets `loaded_`; a rejected load keeps the old payload; an accepted load leaves a payload of the declared size |
| VtfFile.LoadReadsEncoded | lib/VTFLib/VTFFile.cpp:21-32 | loading a written header plus any bytes recovers the header, and succeeds exactly when the signature is "VTF\0", the major version is 7 and the minor version is at most 5 |
| VtfFile.LoadPayloadFromFile | lib/VTFLib/VTFFile.cpp:45-58 | the payload is the file from the payload start on, zero-filled past the end of the file |
| VtfFile.LoadRejects | lib/VTFLib/VTFFile.cpp:24-32 | a rejected header fails the load and leaves `loaded_` and the payload as they were |
| VtfFile.ShortFileZeroPayload | lib/VTFLib/VTFFile.cpp:22-58 | a file shorter than the header yields an all-zero payload if it loads at all |
| VtfFile.SignatureRequired | lib/VTFLib/VTFFile.cpp:24-27 | a file whose first four bytes are not the signature never loads |
| VtfFile.GetImageDataSize | lib/VTFLib/VTFFile.cpp:334-344 | for an existing mip the value is the RGBA8888 encoded size of that mip, mipW x mipH x 4 bytes; it is 0 exactly past the last mip |
| VtfFile.ConvertSourceFits | lib/VTFLib/VTFFile.cpp:258-304 | a converted mip's source bytes lie within the mip's encoded size |
| VtfFile.Dxt3DecodesAsDxt5 | lib/VTFLib/VTFFile.cpp:321-326 | a DXT3 mip decodes pixel for pixel as DXT5 on the same bytes |
| VtfFile.GetImageData | lib/VTFLib/VTFFile.cpp:306-332 | it succeeds exactly when loaded and both indices are in range; on failure the buffer is untouched; on success every pixel of the mip is its decoded pixel and nothing past the mip is written |
| VtfFile.DecodeMipBlocks | lib/VTFLib/VTFFile.cpp:319-326 | the DXT branches decode the mip's own bytes of the payload into the buffer |
| VtfFile.ConvertMip | lib/VTFLib/VTFFile.cpp:327-329 | the other formats convert the mip's own bytes into the buffer |
| S3tc.Word16 | lib/VTFLib/VTFFile.cpp:114-115 | an endpoint is a 16-bit little-endian word |
| S3tc.Expand565 | lib/VTFLib/VTFFile.cpp:118-124 | the shift expansion leaves the low bits zero and loses nothing: packing the channels back gives the word |
| S3tc.Expand565Injective | lib/VTFLib/VTFFile.cpp:118-124 | two endpoints expand to the same colour exactly when they are equal |
| S3tc.Bc1Palette | lib/VTFLib/VTFFile.cpp:127-151 | the DXT1 palette has four entries |
| S3tc.Bc1PaletteAlpha | lib/VTFLib/VTFFile.cpp:127-151 | entries 0 and 1 are the opaque endpoints; every alpha is 0 or 255, and it is 0 exactly for entry 3 when c0 <= c1, which is then transparent black |
| S3tc.Bc1PaletteBetween | lib/VTFLib/VTFFile.cpp:131-146 | every palette colour except the transparent entry of three-colour mode lies channel-wise between the two expanded endpoints |
| S3tc.Bc3ColourBetween | lib/VTFLib/VTFFile.cpp:222-230 | every DXT5 palette colour lies between the two endpoints |
| S3tc.Bc3ColourPaletteIsFourColour | lib/VTFLib/VTFFile.cpp:222-230 | the DXT5 colour palette is DXT1's four-colour palette when c0 > c1, and uses the 1:2 blend for entry 3 even when c0 <= c1 |
| S3tc.AlphaPalette | lib/VTFLib/VTFFile.cpp:193-207 | the alpha palette has eight entries |
| S3tc.AlphaPaletteSixLevels | lib/VTFLib/VTFFile.cpp:197-200 | when a0 > a1, entries 2 to 7 are the six 7ths between a0 and a1, rounded down |
| S3tc.AlphaPaletteFourLevels | lib/VTFLib/VTFFile.cpp:201-206 | otherwise entries 2 to 5 are the four 5ths between them, entry 6 is 0 and entry 7 is 255 |
| S3tc.AlphaPaletteBetween | lib/VTFLib/VTFFile.cpp:193-207 | every interpolated alpha lies between a0 and a1 |
| S3tc.ColourIndex | lib/VTFLib/VTFFile.cpp:154-162 | a texel's colour index is a 2-bit field, below 4 |
| S3tc.AlphaIndex | lib/VTFLib/VTFFile.cpp:187-190 | a texel's alpha index is a 3-bit field of the 48-bit index word, below 8 |
| S3tc.PaletteTexelIsBlockTexel | lib/VTFLib/VTFFile.cpp:126-171 | building the palette once per block and indexing it per texel gives the same texel as decoding the texel directly |
| S3tc.Bc1Transparency | lib/VTFLib/VTFFile.cpp:141-162 | a DXT1 texel is transparent exactly when c0 <= c1 and its index is 3; otherwise it is fully opaque |
| S3tc.Bc3ColourAgreesWithBc1 | lib/VTFLib/VTFFile.cpp:209-233 | when c0 > c1, a DXT5 texel's colour is the DXT1 colour of the block's second half |
| BlockDecode.SourceBytesIsImageSize | lib/VTFLib/VTFFile.cpp:106-111 | the bytes the block loop reads are exactly the mip's encoded size |
| BlockDecode.BlockInSource | lib/VTFLib/VTFFile.cpp:106-111 | every block the loop addresses lies within those bytes |
| BlockDecode.DecodedIsLocal | lib/VTFLib/VTFFile.cpp:105-256 | a decoded pixel depends only on the mip's own source bytes |
| BlockDecode.Bc1AlphaIsBinary | lib/VTFLib/VTFFile.cpp:128-151 | DXT1 alpha is always 0 or 255 |
| BlockDecode.VisitOfInjective | lib/VTFLib/VTFFile.cpp:109-171 | the loop order (block row, block, texel row, texel) visits each pixel at a different step |
| BlockDecode.StepVisitsOnlyTexel | lib/VTFLib/VTFFile.cpp:156-161 | the only pixel visited at a step is the block's texel at that position |
| BlockDecode.DecompressBlocks | lib/VTFLib/VTFFile.cpp:105-256 | every pixel inside the image holds its decoded texel; the bytes past w x h x 4 are untouched; the write log lists each pixel of the image exactly once |
| BlockDecode.TexelIsDecoded | lib/VTFLib/VTFFile.cpp:156-168 | the texel the loop stores is the pixel-wise decoded pixel |
| BlockDecode.DecodedPixelAt | lib/VTFLib/VTFFile.cpp:158-163 | pixel (x, y) is texel 4(y mod 4) + (x mod 4) of block (x div 4, y div 4) |
| Raster.PixelIndexInjective | lib/VTFLib/VTFFile.cpp:163 | distinct pixels of a row-major raster have distinct indices |
| Raster.PixelAfterStore | lib/VTFLib/VTFFile.cpp:165-168 | storing one pixel changes that pixel and no other |
| Raster.RasterDeterminedByPixels | lib/VTFLib/VTFFile.cpp:163 | a raster is determined by its pixels and the bytes past them |
| Convert.SourceStrideIsBpp | lib/VTFLib/VTFFile.cpp:263-292 | the converter reads each source pixel at the width the bit count gives |
| Convert.SwapRedBlueInvolution | lib/VTFLib/VTFFile.cpp:267-292 | swapping red and blue twice is the identity, and a swap fixes exactly the pixels whose red equals blue |
| Convert.SwappedLayouts | lib/VTFLib/VTFFile.cpp:267-292 | BGRA converts as RGBA with red and blue swapped, BGR as RGB swapped, and RGB gives alpha 255 |
| Convert.OpaqueLayoutsLoseNothing | lib/VTFLib/VTFFile.cpp:276-292 | dropping the alpha of a converted 24-bit pixel gives back its three source bytes |
| Convert.UnhandledIsMagenta | lib/VTFLib/VTFFile.cpp:294-302 | every format but RGBA8888, BGRA8888, RGB888 and BGR888 comes out magenta whatever the source holds |
| Convert.ConvertedIsLocal | lib/VTFLib/VTFFile.cpp:258-304 | a converted pixel depends only on its own source bytes |
| Convert.RgbaIsCopy | lib/VTFLib/VTFFile.cpp:263-265 | the RGBA8888 case copies the first n x 4 source bytes unchanged |
| Convert.ConvertToRgba8888 | lib/VTFLib/VTFFile.cpp:258-304 | every pixel is its converted source pixel and nothing past the raster changes |
| Vmt.NewNode | lib/VTFLib/VMTFile.h:12 | a new node has the given name, an empty value and no children |
| Vmt.SetName | lib/VTFLib/VMTFile.h:14-15 | the name changes to the given one; the value and children are kept |
| Vmt.SetValue | lib/VTFLib/VMTFile.h:17-18 | the value changes to the given one; the name and children are kept |
| Vmt.AddChild | lib/VTFLib/VMTFile.h:20 | the copy goes last, and the existing children keep their order |
| Vmt.SettersIndependent | lib/VTFLib/VMTFile.h:14-18 | the last value set wins, the two setters commute, and setting a field to its own value changes nothing |
| Vmt.AddChildrenInOrder | lib/VTFLib/VMTFile.h:20 | adding children one by one lists them in the order added |
| Vmt.SkipLineSuffix | lib/VTFLib/VMTFile.cpp:71-75 | the comment loop passes over exactly the characters before the next line feed |
| Vmt.SkipWs | lib/VTFLib/VMTFile.cpp:67-80 | skipping stops at the end of the text or at a character that is neither white space nor the start of a comment |
| Vmt.SkipWsSuffix | lib/VTFLib/VMTFile.cpp:67-80 | the cursor never moves back and never passes the end |
| Vmt.SkipWsIdempotent | lib/VTFLib/VMTFile.cpp:67-80 | skipping twice is skipping once |
| Vmt.SkipWsWithoutComments | lib/VTFLib/VMTFile.cpp:67-80 | in a text without comments exactly the leading white space is skipped |
| Vmt.SkipWsComment | lib/VTFLib/VMTFile.cpp:71-75 | a comment runs to the end of its line |
| Vmt.ReadQuotedString | lib/VTFLib/VMTFile.cpp:102-122 | nothing is read unless the text starts with a quote; otherwise at least the quote is consumed |
| Vmt.ReadQuotedStringSuffix | lib/VTFLib/VMTFile.cpp:102-122 | the cursor never moves back and never passes the end |
| Vmt.UnterminatedRunsToEnd | lib/VTFLib/VMTFile.cpp:110-119 | a string without a closing quote or backslash runs to the end of the text |
| Vmt.EscapeEdgeCases | lib/VTFLib/VMTFile.cpp:110-119 | a trailing backslash is kept, and an escaped quote is copied without ending the string |
| Vmt.TrailingBackslashKept | lib/VTFLib/VMTFile.cpp:110-119 | for every text free of quotes and backslashes, that text followed by one backslash reads to the end with the backslash kept |
| Vmt.UnterminatedTrailingBackslash | lib/VTFLib/VMTFile.cpp:108-122 | an opening quote, any text free of quotes and backslashes, then a final backslash reads as that text plus the backslash, with nothing left over |
| Vmt.EscapeCopies | lib/VTFLib/VMTFile.cpp:111-114 | a backslash followed by any character, a quote included, copies that character and reading goes on after it |
| Vmt.BareRun | lib/VTFLib/VMTFile.cpp:93-97 | a bare token is the longest prefix of characters that are not white space or braces |
| Vmt.BareRunSplits | lib/VTFLib/VMTFile.cpp:93-97 | the token and the rest put together are the text |
| Vmt.ReadTokenSuffix | lib/VTFLib/VMTFile.cpp:82-100 | the cursor never moves back and never passes the end |
| Vmt.ReadTokenCases | lib/VTFLib/VMTFile.cpp:82-100 | after white space: "" at the end, a quoted string at a quote, the bare run otherwise |
| Vmt.ParseNodeSuffix | lib/VTFLib/VMTFile.cpp:124-159 | the parser's cursor never moves back and never passes the end |
| Vmt.ParseNodeBlockChild | lib/VTFLib/VMTFile.cpp:146-150 | a name followed by `{` adds a child with that name, an empty value and a recursively parsed body, then goes on after it |
| Vmt.ParseNodeLeafChild | lib/VTFLib/VMTFile.cpp:151-156 | a name followed by anything else adds a child whose value is the next token, then goes on |
| Vmt.ParseNodeKeeps | lib/VTFLib/VMTFile.cpp:124-159 | parsing keeps the node's name and value and only appends children |
| Vmt.ParseNodeStops | lib/VTFLib/VMTFile.cpp:125-141 | the loop ends without adding a child at the end of the text, after consuming `}`, before a stray `{`, and after an empty name token |
| Vmt.Parse | lib/VTFLib/VMTFile.cpp:42-65 | the first token is stored as the shader even on failure; success means a non-empty first token followed by `{`; success names the root after the shader and only appends children; failure leaves the root alone |
| Vmt.ReadTokenAfterSkip | lib/VTFLib/VMTFile.cpp:82-83 | skipping white space before `ReadToken` changes nothing |
| Vmt.ToLower | lib/VTFLib/VMTFile.cpp:10-15 | lowering leaves no capital and changes only capitals |
| Vmt.LowerIdempotent | lib/VTFLib/VMTFile.cpp:10-15 | lowering twice is lowering once, and a name without capitals is unchanged |
| Vmt.FindChild | lib/VTFLib/VMTFile.cpp:9-22 | the index found is of the first immediate child whose name matches ignoring case; none is found exactly when no child matches |
| Vmt.FindChildIgnoresCase | lib/VTFLib/VMTFile.cpp:9-22 | names that agree up to case find the same child |
| Vmt.FindChildAfterAdd | lib/VTFLib/VMTFile.cpp:9-22 | adding a child keeps a successful lookup, and a failed lookup then finds the new child only if it matches |
| Vmt.GetBaseTexture | lib/VTFLib/VMTFile.cpp:161-167 | the value of the first root child named `$basetexture` in any case, or "" when there is none |
| Vmt.EmptyFile | lib/VTFLib/VMTFile.cpp:24-25 | a new material has an unnamed empty root and no shader |
| VmtWrite.ReadQuoted | lib/VTFLib/VMTFile.cpp:102-122 | `ReadToken` reads a written quoted string back and leaves what follows |
| VmtWrite.ParseWrittenFile | lib/VTFLib/VMTFile.cpp:42-159 | parsing a written material into a new file succeeds and gives back the shader and the whole tree |
| VmtWrite.ParsedRootWritable | lib/VTFLib/VMTFile.cpp:124-159 | every child the parser produces has a non-empty name, and a child with a body has an empty value |
| VmtWrite.ReparseParsed | lib/VTFLib/VMTFile.cpp:42-65 | a material parsed into a new file, written and parsed again, is the same material |
| VmtParser.NewParser | src/VMTParser.cpp:4-5 | a new parser holds an empty material |
| VmtParser.LoadText | src/VMTParser.cpp:10-12 | loading is `Parse` on the owned material |
| VmtParser.GetRoot | lib/VTFLib/VMTFile.h:39-40 | the root is always present |
| VmtParser.IsLoaded | src/VMTParser.cpp:65-67 | `isLoaded` is always true |
| VmtParser.GetShader | src/VMTParser.cpp:14-19 | the stored shader, initially empty |
| VmtParser.GetParameter | src/VMTParser.cpp:28-39 | the value of the first child matching ignoring case, or "" when none matches |
| VmtParser.BaseTextureIsParameter | src/VMTParser.cpp:21-39 | `getBaseTexture` is `getParameter("$basetexture")` |
| VmtParser.AbsentLooksEmpty | src/VMTParser.cpp:28-39 | a missing parameter and one with an empty value read the same |
| VmtParser.ExtractParameters | src/VMTParser.cpp:52-63 | the map has exactly the children's exact names as keys, each mapped to the value of the last child so spelled |
| VmtParser.GetAllParameters | src/VMTParser.cpp:41-50 | the flattened map of the root's children |
| VmtParser.ParameterMapUnique | src/VMTParser.cpp:52-63 | that map is unique |
| VmtParser.KeysAreCaseSensitive | src/VMTParser.cpp:58-62 | `$BaseTexture` and `$basetexture` give two entries |
| VmtParser.LookupIgnoresCase | src/VMTParser.cpp:28-39 | `getParameter` finds the first of them for either spelling |
| VmtParser.LastValueWins | src/VMTParser.cpp:61 | of two children with the same exact name, the last value is kept |
| VmtParser.BlocksMapToEmpty | src/VMTParser.cpp:52-63 | after a load, a child holding a block maps to "" |
| VtfReader.GetImage | src/VTFReader.cpp:16-31 | the null image unless loaded with both indices in range; otherwise a max(1, W >> mip) x max(1, H >> mip) image whose pixels are the decoded mip |
| VtfReader.Shr | src/VTFReader.cpp:21-22 | clamping the shifted extent at 1 gives the mip extent |
| VtfReader.ThumbnailMip | src/VTFReader.cpp:38-51 | the loop moved on from every earlier mip and stopped at the one returned |
| VtfReader.ThumbnailMipUnique | src/VTFReader.cpp:38-51 | exactly one mip satisfies that stopping rule |
| VtfReader.ThumbnailMipBounds | src/VTFReader.cpp:38-51 | the chosen mip is 0 or an existing mip, and past 0 both of its extents are at least maxSize |
| VtfReader.ThumbnailStopsAtSize | src/VTFReader.cpp:43-49 | the loop stops before the last mip only because the next mip would be smaller than maxSize |
| VtfReader.GetThumbnail | src/VTFReader.cpp:33-53 | frame 0 of the chosen mip, null when the texture is not loaded or has no frame or mip |
| VtfReader.GetFormat | src/VTFReader.cpp:79-81 | the name is "UNKNOWN" exactly when the header's format is not one of the named formats |
| PropertiesPanel.Tests | src/PropertiesPanel.cpp:55-64 | one test per label, ten in all |
| PropertiesPanel.TableValues | src/PropertiesPanel.cpp:55-64 | the ten masks are the flag constants POINTSAMPLE to ENVMAP, and the inspected mask is their union |
| PropertiesPanel.LabelsDistinct | src/PropertiesPanel.cpp:55-64 | no label contains a comma or is "None", and no two labels are equal |
| PropertiesPanel.SelectedRises | src/PropertiesPanel.cpp:55-64 | labels are appended in table order |
| PropertiesPanel.SelectedIffPassed | src/PropertiesPanel.cpp:55-64 | a table entry is listed exactly when its test passes |
| PropertiesPanel.ListInOrder | src/PropertiesPanel.cpp:55-70 | the list is the labels of the passed tests, in table order |
| PropertiesPanel.LabelListedIffPassed | src/PropertiesPanel.cpp:55-64 | a label is in the list exactly when its test passes |
| PropertiesPanel.TestIsMask | src/PropertiesPanel.cpp:55-64 | test j passes exactly when mask j's bit is set |
| PropertiesPanel.LabelShownIffSet | src/PropertiesPanel.cpp:55-64 | each label appears exactly when its flag bit is set |
| PropertiesPanel.NoneIffNonePassed | src/PropertiesPanel.cpp:66-70 | the text is "None" exactly when no test passes |
| PropertiesPanel.NoneIffNoInspectedBit | src/PropertiesPanel.cpp:55-68 | the text is "None" exactly when none of the ten inspected bits is set |
| PropertiesPanel.InspectedBitsDecideTests | src/PropertiesPanel.cpp:55-64 | bits outside the ten never change a test |
| PropertiesPanel.SameTestsIffSameInspectedBits | src/PropertiesPanel.cpp:55-64 | two flag words pass the same tests exactly when they agree on the inspected bits |
| PropertiesPanel.UninspectedFlagsShowNone | src/PropertiesPanel.cpp:55-68 | HINT_DXT5, ONEBITALPHA and EIGHTBITALPHA together still read "None" |
| PropertiesPanel.SeparatorCount | src/PropertiesPanel.cpp:53-70 | with k labels listed, the text has k - 1 commas |
| PropertiesPanel.SplitJoin | src/PropertiesPanel.cpp:70 | splitting a ", "-joined list of comma-free labels at the commas gives the list back |
| PropertiesPanel.ReadBackText | src/PropertiesPanel.cpp:55-70 | the passed tests can be read back from the text |
| PropertiesPanel.SameTextIffSameInspectedBits | src/PropertiesPanel.cpp:52-71 | two flag words give the same text exactly when they agree on the ten inspected bits |

## Left out

- File I/O: `ifstream`, `seekg` and `read` are replaced by the bytes or text of the file held in memory. The unchecked read count is modelled as zero-fill past the file's end.
- The Qt layer is not modelled: widgets, `QImage` allocation, the smooth scaling in `getThumbnail`, image export, and the HTML of the properties panel.
- `VTFLib::Initialize` and `Shutdown` are not part of this model.
- Fixed-width overflow is not modelled: the `uint32` payload total, the `int` product `width * height * bpp`, and the 16-bit truncation of mip extents. All sizes are unbounded `nat`.
- Shifts by 32 or more, which are undefined in C++, are modelled as division by the power of two.
- The float header fields `reflectivity` and `bumpmapScale` are kept as opaque bytes, because nothing reads them.
- Host-endian struct reads are modelled as little-endian.
- The `header_.mipmapCount - 1` start of `ComputeMipmapOffset` is modelled only for in-range mips. VtfLayout.ComputeMipmapOffset requires `mipmap < mipmapCount`, which is what its one caller, `GetImageData`, checks first.
- VtfFile.GetImageData requires the payload to have the size the header declares. Every load into a new object gives this, and the viewer always loads into a new object. A failed reload of an already loaded object keeps `loaded_` with a new header. Reading past the vector after that is not modelled.
- VtfFormat.Name: the lemmas state which ids read "UNKNOWN". The spellings of the 25 named formats are stated only by the function's own table; no lemma proves that two formats have different names.
- VtfFormat.Bpp: its contract states only the zero cases and the set of values. The exact value of each format is pinned by VtfFormat.BppFromLayout against the channel widths the format names spell out.
- VtfReader.GetImage: frame and mipmap are `nat`. The source's `int` parameters may be negative. `GetImageData` would turn a negative value into a huge `uint32` and return the null image, and a negative mipmap makes the shift undefined. Every caller passes 0 or the thumbnail mip.
- Text is modelled one character per byte. Neither `isspace` and `tolower` on negative `char` values nor the UTF-8 conversion of `VMTParser` (`toStdString`, `fromStdString`, src/VMTParser.cpp:33 and 59-60) is modelled, so the model does not cover invalid UTF-8 names that would merge into one key.
- `VMTFile::Load` is not modelled beyond `Parse` of the file's text.
