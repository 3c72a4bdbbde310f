# RwgTex DDS exporter and BGRA packer — a Dafny model

RwgTex converts game textures. This project models the part of it that
decides how a texture is written to a DirectDraw Surface (DDS) file and that
writes the bytes it produces itself:

- the format vocabulary: FourCC codes, display names, compression ratios and
  the swizzled DXT5 variants (`formats.dfy`);
- `CompressedSize`, the number of bytes an exported file needs: magic, header,
  base layer and mip chain, in 1x1 pixels for raw BGRA and 4x4 blocks otherwise
  (`size_model.dfy`);
- `DDSHeader`, the magic word followed by the 124-byte `DDSURFACEDESC2`.
  It is modelled as a record, as its little-endian encoding, and as a parser
  that reads the encoding back. It is also modelled as a method writing the
  bytes into the output array (`dds_header.dfy`);
- the exporter's policy in `GenerateDDS`: default format, forced formats in
  priority order, the DXT3/DXT5 downgrade for opaque images, colour
  premodulation, compressor choice, alpha binarisation and mip generation
  (`policy.dfy`);
- the three library back ends' format tables (NVIDIA DXT library, NVIDIA
  Texture Tools, ATI Compress). Also the dispatch between them and the
  internal BGRA packer `InternalCompress`, as a method over the output array
  (`backends.dfy`);
- the RWGTP tool: `PackBGRAData`, which copies pixels into the stream with the
  block's stride, and `ToolRWGTP_Compress`, which packs every image map one
  after the other (`rwgtp_packer.dfy`).

Bytes are `bv8`, DWORDs are `bv32`. The image's mip chain and the `TexEncodeTask`'s map
chain are linked lists in the program; here they are sequences in chain order.
The output buffer is an `array<byte>`. Every writing method states its whole
new contents as a function of the old contents, and lemmas prove what those
functions mean:

- the header parses back to the header that was built;
- raw packing puts pixel k at offset 4k;
- with the 4-byte BGRA block, packing all maps of a task lays them out contiguously;
- bytes outside the written window are unchanged.

Things seen while modelling:

- `InternalCompress` (src/dds.cpp:487-523) packs only the base layer.
  `CompressedSize` reserves room for the mip chain, and the header declares
  `1 + mips` levels. So a BGRA file keeps zero bytes where its mip levels
  should be. The model reproduces this (`Backends.InternalCompress` ensures
  that everything after the base layer is unchanged).
- `PackBGRAData` (src/tool_rwgtt.cpp:62-98) steps the output by the block's
  byte size but always writes four bytes. With a 3-byte or 1-byte block, each
  pixel's tail is overwritten by the next pixel. `RwgtpPacker.StridedPack`
  models these writes in order, so the overlap is kept. For the 4-byte BGRA
  block, `RwgtpPacker.StridedPackMatchesInternal` shows that the packer
  writes exactly what `InternalCompress` writes.
- `getCompressionRatio` returns a `double` that `CompressedSize` multiplies by
  64 and truncates; BGRA never reaches that product, because it takes the
  4-byte branch. The model replaces the ratio with its exact denominator (8
  or 4), which gives the same 8 and 16 bytes for the DXT codes.

## Model

| member | source | states |
|---|---|---|
| Formats.FormatName | src/dds.cpp:58-67 | a 4-letter name exactly for DXT1-DXT5 and BGRA, "UNKNOWN" for every other code; "BGRA" starts with B, DXTn with D |
| Formats.FormatNameSpellsCode | src/dds.cpp:58-66 | the name of each of the six named codes, packed little-endian as a FourCC, is that code |
| Formats.RatioDenominator | src/dds.cpp:69-76 | the ratio is 1 exactly for BGRA, 1/8 exactly for DXT1, and 1/4 for every other code |
| Formats.IsDXT5SwizzledFormat | src/dds.cpp:115-122 | no swizzled DXT5 tag is one of the six named codes or zero, so the swizzle test never catches a plain format |
| SizeModel.CeilDiv | src/dds.cpp:97-98 | the rounded-up quotient is the least r with r*b >= a |
| SizeModel.BlockDim | src/dds.cpp:83-91 | a block's bytes times the compression ratio's denominator are its pixels at 4 bytes each, so the block is 1x1 for BGRA and 4x4 for every compressed format |
| SizeModel.BlockBytes | src/dds.cpp:83-91 | a block is 4 bytes exactly for BGRA, 8 exactly for DXT1, and 16 for all other formats |
| SizeModel.LayerSize | src/dds.cpp:95-100 | an empty layer (zero width or height) takes no bytes |
| SizeModel.MipChainSize | src/dds.cpp:102-110 | the chain's size is 0 for no mips and at least the size of every one of its layers |
| SizeModel.CompressedSize | src/dds.cpp:78-113 | each requested part (128-byte header, base layer, mip chain) is contained in the total; a request for nothing is 0 bytes |
| SizeModel.LayerSizeTable | src/dds.cpp:95-110 | a layer is w*h*4 bytes for BGRA and ceil(w/4)*ceil(h/4) blocks of 8 or 16 bytes for DXT formats |
| SizeModel.CompressedSizeSplits | src/dds.cpp:78-113 | the total is header + base layer + mip chain; with every part switched off it is 0; the header part is 4 + 124 bytes |
| SizeModel.MipChainSizeAppend | src/dds.cpp:102-110 | the mip chain's size is additive over concatenated chains |
| SizeModel.LayerSizePositive | src/dds.cpp:95-101 | a non-empty layer takes at least one whole block |
| SizeModel.ExampleSizes | src/dds.cpp:78-113 | a 128x128 DXT1 texture with header is 4+124+8192 bytes; a 130x130 DXT5 base layer is 33*33 blocks of 16 bytes |
| Images.BgraAt | src/dds.cpp:496-518 | a pixel as BGRA: its first three bytes copied, then its alpha byte or 255 when the image has none |
| Images.MulIsProduct | src/dds.cpp:492 | bridge from the model's repeated-addition offsets to the source's `width * height * bpp`: `Mul(a, b)` equals `a * b` |
| Images.MulMono | src/dds.cpp:492 | bridge lemma for the pixel loops' bounds: repeated-addition offsets grow with the pixel index |
| DdsHeader.PixelFormatFlags | src/dds.cpp:141-164 | raw surfaces carry DDPF_RGB and DDPF_ALPHAPIXELS, compressed ones DDPF_FOURCC; alpha and premultiplied flags exactly as the image and format demand; no other bit is set |
| DdsHeader.BgraPixelFormat | src/dds.cpp:141-149 | a raw BGRA surface is 32-bit RGB with masks 0xff0000, 0xff00, 0xff and alpha mask 0xff000000, flagged RGB and alpha |
| DdsHeader.FourCCPixelFormat | src/dds.cpp:150-171 | a compressed surface carries its FourCC, no masks, the compressed-surface flags of `PixelFormatFlags` (so no stray bit), alpha flag iff the image has alpha, premultiplied iff DXT2/DXT4; a swizzled DXT5 is stored as DXT5 with the swizzle tag in the bit count |
| DdsHeader.BuildHeader | src/dds.cpp:124-171 | header size 124, fixed flags and caps, width and height, 1 + number of mips, pitch width*4 (32-bit wrap) for BGRA and 0 otherwise, and the matching pixel format |
| DdsHeader.LE32RoundTrip | src/dds.cpp:128 | decoding the 4 little-endian bytes of a DWORD gives it back |
| DdsHeader.FlattenAt | src/dds.cpp:173 | word k of a flattened word sequence is read back at byte 4k |
| DdsHeader.HeaderBytes | src/dds.cpp:124-176 | the header bytes are exactly as long as the header part of CompressedSize |
| DdsHeader.ReadWords | src/dds.cpp:173 | after the magic word, the 31 encoded words are read back in order |
| DdsHeader.ParseWords | src/dds.cpp:128-173 | magic + 31 words parses back to the record built from those words |
| DdsHeader.ParseEncoded | src/dds.cpp:128-173 | every header record survives encoding and parsing unchanged |
| DdsHeader.WordsRoundTrip | src/dds.cpp:131-171 | the record's word layout is lossless |
| DdsHeader.UnsetWordsAreZero | src/dds.cpp:132 | the fields the exporter never sets are encoded as zero, because the record is cleared first |
| DdsHeader.HeaderReadBack | src/dds.cpp:124-176 | the written header is 128 bytes, parses back to the built header, and declares 1 + number of mips levels |
| DdsHeader.CopyInto | src/dds.cpp:128-174 | the bytes land at the cursor, the cursor advances by their length, and nothing else in the stream changes |
| DdsHeader.DDSHeader | src/dds.cpp:124-176 | the stream holds the header bytes at the cursor and is unchanged elsewhere; the returned cursor is advanced by the header part of CompressedSize |
| FormatPolicy.DefaultFormat | src/dds.cpp:558-564 | DXT5 exactly for a non-heightmap image that has alpha and gradient alpha, DXT1 otherwise |
| FormatPolicy.FirstMatchIsLeast | src/dds.cpp:565-578 | an if-else chain of overrides yields the first rule that fires, and the fallback when none fires |
| FormatPolicy.FirstMatchCons | src/dds.cpp:565-578 | one step of the override chain: the head rule fires or the rest decides |
| FormatPolicy.ChosenFormat | src/dds.cpp:557-578 | a forced format wins; otherwise the default stands unless a per-file force list matched |
| FormatPolicy.ChosenFormatIsFirstMatch | src/dds.cpp:565-578 | without a forced format, the choice is the first matching rule of DXT1, DXT2, DXT3, DXT4, DXT5, BGRA over the default |
| FormatPolicy.FormatPriority | src/dds.cpp:565-578 | the earliest matching per-file rule decides the format; with no rule matching, the default decides |
| FormatPolicy.DowngradeOpaque | src/dds.cpp:582-585 | an image without alpha never ends as DXT3 or DXT5; those become DXT1 and nothing else changes |
| FormatPolicy.DowngradeIdempotent | src/dds.cpp:582-585 | downgrading twice is downgrading once |
| FormatPolicy.SelectTool | src/dds.cpp:587-605 | BGRA always goes to the internal packer; an explicit compressor is kept; automatic mode picks NVIDIA exactly when forced to it or for a normal map not forced to ATI, else ATI |
| FormatPolicy.Resolve | src/dds.cpp:553-616 | the final format is the downgraded choice; premodulation iff DXT2/DXT4; tool by SelectTool; alpha binarised iff DXT1 with alpha; mips unless disabled globally or per file |
| Backends.NvDxtOptions | src/dds.cpp:214-235 | NvDXTlib accepts exactly DXT1-DXT5; 1-bit-alpha DXT1 exactly for DXT1 with alpha; four-colour DXT1 blocks forced exactly for opaque DXT1 |
| Backends.NvttOptions | src/dds.cpp:319-334 | NVTT accepts exactly DXT1-DXT5 and picks 1-bit-alpha DXT1 exactly for DXT1 with alpha |
| Backends.AtiOptions | src/dds.cpp:416-431 | ATI Compress accepts exactly DXT1-DXT5 and turns DXT1 alpha on exactly for DXT1 with alpha |
| Backends.S3tcFor | src/dds.cpp:214-230 | a block encoding exists exactly for DXT1-DXT5 (none for BGRA): DXT1 gives DXT1 blocks, with 1-bit alpha when the image has alpha; DXT2 and DXT3 exactly give DXT3 blocks; DXT4 and DXT5 exactly give DXT5 blocks |
| Backends.LibraryBackendsAgree | src/dds.cpp:214-235 | the NVIDIA DXT, NVIDIA Texture Tools and ATI tables accept the same formats and choose the same block encoding (DXT1 with or without 1-bit alpha, DXT3, DXT5) |
| Backends.LibraryBlockMatchesSizeModel | src/dds.cpp:319-334 | the encoding a library picks uses exactly the block size CompressedSize reserved |
| Backends.Dispatch | src/dds.cpp:625-635 | the automatic tool left unresolved is the fatal error; the internal packer runs exactly for BGRA and rejects every other code; a library tool encodes exactly the codes that have an encoding, with the shared encoding table |
| Backends.ResolvedFormatIsSupported | src/dds.cpp:553-635 | with no forced format or any of the six named codes forced, and a library or automatic compressor, the resolved tool accepts the resolved format |
| Backends.PackedBgra | src/dds.cpp:487-523 | the packed layer is 4 bytes per pixel |
| Backends.PackedBgraAt | src/dds.cpp:496-518 | packed byte 4k+j is byte j of pixel k in BGRA form |
| Backends.PixelStored | src/dds.cpp:496-518 | packed pixel k holds the source pixel's three colour bytes and its alpha byte or 255 |
| Backends.PackedBgraFillsLayer | src/dds.cpp:492 | a loaded image's pixels suffice for width*height pixels, and the packed layer is exactly the BGRA layer size |
| Backends.StoreIsWrite4 | src/dds.cpp:499-502 | four stores at one offset with nothing else changed is the 4-byte window update |
| Backends.Write4Inside | src/dds.cpp:499-502 | the window update puts the pixel's bytes inside the window |
| Backends.Write4Outside | src/dds.cpp:499-502 | the window update leaves bytes outside the window alone |
| Backends.StorePixel | src/dds.cpp:499-502 | four bytes are stored at the offset and the rest of the stream is unchanged |
| Backends.PixelsMakePacked | src/dds.cpp:495-518 | a stream that holds the packed pixels in the window and the old bytes outside it is the spliced stream |
| Backends.CopyBgraPixels | src/dds.cpp:495-506 | the alpha loop writes the packed layer at the cursor and changes nothing else |
| Backends.ExpandBgrPixels | src/dds.cpp:507-518 | the opaque loop writes each 3-byte pixel as BGR + 255 at the cursor and changes nothing else |
| Backends.InternalCompress | src/dds.cpp:487-523 | success exactly for BGRA, with the packed base layer spliced in at the cursor; any other format fails and leaves the stream untouched |
| RwgtpPacker.StridedPack | src/tool_rwgtt.cpp:71-93 | the buffer after k strided 4-byte pixel writes keeps its length |
| RwgtpPacker.StridedPackSurvives | src/tool_rwgtt.cpp:71-93 | a pixel's byte j is in the output when no later pixel overwrites it (j below the stride, or the last pixel) |
| RwgtpPacker.StridedPackUntouched | src/tool_rwgtt.cpp:71-93 | a byte no pixel's window covers keeps its old value |
| RwgtpPacker.StridedPackMatchesInternal | src/tool_rwgtt.cpp:71-93 | with a 4-byte stride the packer writes exactly the internal compressor's packed layer, spliced at the cursor |
| RwgtpPacker.PackStep | src/tool_rwgtt.cpp:73-80 | one loop iteration adds pixel k's four bytes at offset k*stride |
| RwgtpPacker.StoreBgra | src/tool_rwgtt.cpp:75-78 | four stores are the window update at the offset |
| RwgtpPacker.StorePackedPixel | src/tool_rwgtt.cpp:75-80 | storing pixel k extends the packed state from k to k+1 pixels |
| RwgtpPacker.CursorBelowEnd | src/tool_rwgtt.cpp:73 | the `in < end` test holds exactly while pixels remain |
| RwgtpPacker.PackAlphaPixels | src/tool_rwgtt.cpp:71-81 | the alpha loop leaves the stream as the strided pack of all pixels with their alpha |
| RwgtpPacker.PackOpaquePixels | src/tool_rwgtt.cpp:83-93 | the opaque loop leaves the stream as the strided pack of all pixels with alpha 255 |
| RwgtpPacker.MapSizeIsProduct | src/tool_rwgtt.cpp:94-97 | a supported block reports width*height*(bitlength/8) bytes; an unsupported block reports 0 |
| RwgtpPacker.PackMap | src/tool_rwgtt.cpp:62-98 | packing one map keeps the buffer's length |
| RwgtpPacker.PackBGRAData | src/tool_rwgtt.cpp:62-98 | the stream becomes the map's strided pack (unchanged for an unsupported block) and the returned count is the map's size |
| RwgtpPacker.PackChain | src/tool_rwgtt.cpp:100-106 | packing a chain of maps keeps the buffer's length |
| RwgtpPacker.ChainLoopStart | src/tool_rwgtt.cpp:102-103 | before the first map the loop invariant holds |
| RwgtpPacker.ChainAdvance | src/tool_rwgtt.cpp:103-104 | packing map i and advancing the cursor by its returned size keeps the loop invariant for i+1 |
| RwgtpPacker.ChainLoopDone | src/tool_rwgtt.cpp:105 | after the last map the stream is the packed chain |
| RwgtpPacker.ToolRWGTP_Compress | src/tool_rwgtt.cpp:100-106 | always succeeds, and the stream is every map packed in chain order, each at the cursor the previous returned size left |
| RwgtpPacker.PackChainUnsupported | src/tool_rwgtt.cpp:96-97 | with an unsupported block nothing is written and the cursor never moves |
| RwgtpPacker.ChainSizeUnsupported | src/tool_rwgtt.cpp:96-97 | an unsupported block adds nothing to the chain size |
| RwgtpPacker.PackedMaps | src/tool_rwgtt.cpp:100-106 | the concatenated packed maps are 4 bytes per pixel over all maps |
| RwgtpPacker.ContiguousReady | src/tool_rwgtt.cpp:100-106 | with a 4-byte block, room for all pixels is enough for every map's writes, and the chain is 4 bytes per pixel long |
| RwgtpPacker.PackChainContiguous | src/tool_rwgtt.cpp:100-106 | with a 4-byte block the chain is the maps' packed layers laid out back to back at the cursor, the rest of the stream unchanged |
| RwgtpPacker.PackMapBgra | src/tool_rwgtt.cpp:62-98 | with a 4-byte block one map's pack is its packed layer spliced at the cursor, and its size is 4 bytes per pixel |
| RwgtpPacker.PackChainStep | src/tool_rwgtt.cpp:102-104 | the chain is the first map's pack followed by the rest of the chain at the advanced cursor |

## Left out

- The library compressors themselves (nvDXTcompress, NVTT, ATI_TC_ConvertTexture) and the NVIDIA write callback are foreign code. Only their format tables and their accept or reject outcome are modelled.
- Image processing that `GenerateDDS` calls (colour conversion, premodulation, 2x scaling, power-of-two resizing, alpha binarisation, mip generation) is outside this model. `FormatPolicy.Resolve` decides only whether premodulation, alpha binarisation and mip generation apply, not their effect on the pixels.
- `FormatPolicy.Resolve`: does not decide 2x scaling or power-of-two resizing (src/dds.cpp:609-612); the options they read (`opt_scale`, `opt_forceScale2x`, `opt_allowNonPowerOfTwoDDS`) are not part of `FormatPolicy.Options`, since those steps do not affect the format, the tool or the header the model covers.
- File-name matching against option lists (`FS_FileMatchList`) is taken as given booleans in `FormatPolicy.FileMatches`.
- ZIP output, file writing, the zip mutex, statistics, warnings and log text are I/O and are left out. So are the early `!image->bitmap` return and the `DDS_Main` entry.
- The tool registration record, option parsing and help text (src/tool_rwgtt.cpp:12-52) are configuration, not behaviour.
- `SizeModel.CeilDiv`: the source rounds up through `float` and `ceil`. The model uses exact integer ceiling, which differs only for dimensions above 2^24.
- Sizes and offsets are unbounded integers: `size_t` and `int` overflow in `CompressedSize` and in the packers' pointer arithmetic is not modelled. Of the 32-bit header fields the exporter computes, the pitch (`width*4`) is wrapped explicitly; width, height and the mip count `1 + mips` are instead required to fit 32 bits (`DdsHeader.HeaderFits`), so their overflow is excluded rather than modelled.
- The 124-byte size of `DDSD2` and its 31-DWORD field layout are defined in dds.h, which is not part of this model. Both are taken from the documented `DDSURFACEDESC2` of the DDS file format. The other constants from dds.h, the `DDSD_`, `DDPF_` and `DDSCAPS_` flag values, the "DDS " magic and the seven swizzled DXT5 FourCCs, are likewise the documented DirectX and NVIDIA DDS values.
- `FORMAT_BGRA`'s numeric value is defined in dds.h, which is not part of this model. The model uses the FourCC "BGRA". `Formats.FormatNameSpellsCode`'s BGRA case holds only for this choice; every other property needs only BGRA to be distinct from 0, the five DXT codes and the seven swizzled DXT5 tags.
- The block table (`B_BGRA`, `B_BGR6`, `B_BGR3`, `B_BGR1` and their bit lengths) lives in tex.h, which is not part of this model. `RwgtpPacker.Block` carries the bit length as a free field.
- `Backends.InternalCompress`: requires the loader's pixel layout (4 bytes per pixel with alpha, 3 without, `width*height` pixels), because the source's loops hard-code those strides. It does not model a buffer that breaks that layout.
- `RwgtpPacker.PackBGRAData`: requires that the map's pixels and every strided 4-byte write fit their buffers. The source relies on the caller's allocation for this. With a block narrower than 4 bytes, the last pixel writes `4 - stride` bytes past the returned size, so the allocation must leave that slack; the same holds for the last map of `ToolRWGTP_Compress`'s chain (`RwgtpPacker.ChainReady`). The allocation is not part of this model.
- `Backends.ResolvedFormatIsSupported`: requires a library or automatic compressor, and a forced code that is 0 or one of the six named codes (the values the `-dxt1` to `-bgra` options listed at src/dds.cpp:754-759 set). An explicitly chosen internal compressor with a DXT format is rejected by the source, and the model's `Dispatch` returns `Unsupported` for it.
- `Images.Mul`: pixel offsets use multiplication written as repeated addition. `Images.MulIsProduct` proves it equal to `*`; the form only keeps the solver's arithmetic linear.
