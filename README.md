# BLP2 texture converter: a Dafny model of its decoding core

The converter reads a BLP2 texture. A BLP2 file begins with a packed 1172-byte header: the
magic `BLP2`, a type, the compression, alpha depth, alpha type and mipmap flag, then width and
height. After those come the offsets and lengths of 16 mipmaps and a 256-entry palette. When
the compression is 2 (DXTC), the converter decodes the first mipmap into RGBA8 pixels. Alpha
type 0 selects DXT1, which uses 8-byte blocks. Alpha type 1 selects DXT3 and alpha type 7
selects DXT5; both use 16-byte blocks. The decoded image then goes to an image writer, under
a name built from the input's base name and an output format given on the command line.

The model has six modules:

- `Wrappers` holds `Option` and `Result`.
- `Bytes` is the bit vocabulary of the C code. It has little-endian reading and writing over
  unbounded naturals, bit fields, shifts, and `&`/`|` on bytes, with the lemmas linking them.
- `Dxt` covers the three block decoders. Each one is a function giving the 16 pixels of a
  block, plus a method that fills a 64-byte array the way the C routine fills `rgba_pixels`.
  The lemmas state the palette, the alpha table and the bit layout of every index.
- `Grid` covers the block loop of `decode_dxt_image`.
  - `Tiles` decodes every block and `Assemble` places each output byte. Together they
    specify the image.
  - The method `DecodeDxtImage` walks the ⌈w/4⌉ × ⌈h/4⌉ block grid and writes a `4*w*h`-byte
    array in place, clipping at the right and bottom edges.
  - The method is proved equal to `DecodedImage`.
  - `DecodedImagePixel` states, pixel by pixel, where each byte of the image comes from.
- `Blp` covers the header. It is parsed from, and encoded back to, its 1172 bytes. This module
  also holds the checks of `convert_blp_file` and the whole conversion of one file.
- `Paths` covers the filename/extension split and the output-format helpers.

Where the code and the format's usual description differ, the model follows the code:

- The RGB565 endpoints are widened by shifting alone, without replicating the high bits.
- DXT3 and DXT5 go through the DXT1 colour routine unchanged, so its `color0 <= color1`
  branch applies to them too: it gives a half-way colour and a transparent black.
- Every interpolation truncates. For endpoints 255 and 0 the DXT5 alpha table is
  `255, 0, 218, 182, 145, 109, 72, 36`. A rounding decoder would give 219, 146 and 73 where the
  code gives 218, 145 and 72.
- The code never checks the header's type field, its alpha depth or its mipmap flag. It also
  does not compare the first mipmap's length with the number of blocks, and it does not bound
  the image's size. `Blp.Dispatch`, `Blp.Classify` and `Blp.ConvertBlp` make only the checks
  the code makes. The decoder's needs become `Blp.ConvertBlp`'s precondition `Convertible`:
  the mipmap holds every block, and the output is at most 2^31 bytes. The checked variants
  `Blp.DispatchChecked`, `Blp.ClassifyChecked` and `Blp.ConvertBlpChecked` are separate members
  (see "Findings"). They reject such files instead of decoding them.

File reading is modelled as slicing: the file is a byte sequence and `seq` slices stand in for
`fread` and `fseek`. A short read of the header or of the mipmap is the slice not fitting. The
header's fields and the `uint64_t` loads in the DXT3 decoder are read little-endian.

## Model

| member | source | states |
|---|---|---|
| Dxt.Expand565RoundTrip | main.c:110-116 | widening an RGB565 endpoint by shifts loses nothing: its 5/6/5 high bits repack to the original 16-bit value |
| Dxt.Expand565Injective | main.c:110-116 | two endpoints widen to the same colour exactly when their 16-bit values are equal |
| Dxt.Palette | main.c:106-143 | slots 0 and 1 are the widened endpoints; all four slots are opaque exactly when color0 > color1; otherwise slot 3 is (0,0,0,0) |
| Dxt.PaletteOrder | main.c:123-143 | every channel of an interpolated slot lies between the endpoints' channels, in the order 0, 2, 3, 1 when there are four colours |
| Dxt.ColorIndexLayout | main.c:145-146 | pixel i's 2-bit palette index, taken from the little-endian colour word of line 108, is bits 2(i%4)..2(i%4)+1 of block byte 4 + i/4 |
| Dxt.Dxt1ToRgba | main.c:105-153 | the 64 bytes written are the four channels of the 16 palette pixels in row-major order, and nothing but the output array changes |
| Dxt.NibbleLayout | main.c:157-165 | pixel i's 4-bit alpha, taken from the first 8 bytes read as a little-endian word, is the low or high nibble of byte i/2 |
| Dxt.ExpandNibble | main.c:165 | `(n << 4) \| n` is 17·n, so every DXT3 alpha is one of 0, 17, …, 255 |
| Dxt.Dxt3Pixel | main.c:155-168 | a DXT3 pixel keeps the RGB that the DXT1 routine gives for bytes 8..15, and its alpha is 17 times its nibble |
| Dxt.Dxt3ToRgba | main.c:155-168 | the output is the DXT1 tile of bytes 8..15 with each alpha byte replaced by the expanded nibble |
| Dxt.AlphaTable | main.c:180-200 | entries 0 and 1 are alpha0 and alpha1; if alpha0 > alpha1 the table falls from alpha0 to alpha1 through 2..7; otherwise it rises from alpha0 through 2..5 to alpha1, and entries 6 and 7 are 0 and 255 |
| Dxt.AlphaTableSevenths | main.c:184-191 | when alpha0 > alpha1, entry k (2 ≤ k < 8) is the truncated weighted mean ((8-k)·alpha0 + (k-1)·alpha1)/7 |
| Dxt.AlphaTableFifths | main.c:192-199 | when alpha0 ≤ alpha1, entry k (2 ≤ k < 6) is ((6-k)·alpha0 + (k-1)·alpha1)/5 |
| Dxt.AlphaTableOpaqueToClear | main.c:180-191 | for endpoints 255 and 0 the table is 255, 0, 218, 182, 145, 109, 72, 36, with truncating division |
| Dxt.AlphaIndexWindow | main.c:206-218 | pixel i's 3-bit alpha index is the bits 3i..3i+2 of the six index bytes read little-endian |
| Dxt.MaskedOr | main.c:215 | the or in the straddling branch adds two disjoint parts: the high bits of one byte and the masked low bits of the next |
| Dxt.TwoByteIndex | main.c:213-215 | when the bit offset is 6 or 7, the two-byte expression gives the 3-bit field of the 16-bit little-endian pair |
| Dxt.OneByteIndex | main.c:216-217 | when the bit offset is at most 5, the one-byte expression gives that same 3-bit field |
| Dxt.CrossingIndexHasNextByte | main.c:215 | an index straddling a byte boundary always has its second byte inside the six index bytes |
| Dxt.AlphaIndexAsWrittenCorrect | main.c:206-218 | the two-branch extraction as written equals the index taken from the 48-bit little-endian field, so it is below 8 and the table lookup is in bounds |
| Dxt.AlphaIndexReadsIndexBytes | main.c:206-218 | the extracted index depends only on block bytes 2..7 |
| Dxt.Dxt5ToRgba | main.c:170-222 | the output is the DXT1 tile of bytes 8..15 with pixel i's alpha replaced by table[index i] |
| Grid.BlocksAcross | main.c:225-226 | ⌈n/4⌉ blocks cover n pixels with fewer than four to spare |
| Grid.BlockInRange | main.c:240 | block k's bytes, at offset k·block_size, lie inside the data the grid needs |
| Grid.BlockOffsetsFit | main.c:228-240 | for the sizes the decoder handles, every block offset computed in uint32_t stays below 2^32 |
| Grid.FitsIndicesBoundary | main.c:261-267 | the size bound is exact: a 16384×32768 image, whose largest byte index is 2^31 - 1, is handled, and one row more is not |
| Grid.DecodeBlockAt | main.c:239-252 | the tile decoded for block (bx, by) is the decoded block read at offset (by·blocks_wide + bx)·block_size |
| Grid.SkipStep | main.c:259 | a tile pixel outside the image leaves the output unchanged |
| Grid.CopyStep | main.c:261-267 | a tile pixel inside the image copies its four bytes from `(py*4+px)*4` to `(y*w+x)*4` and takes the paste one pixel further |
| Grid.CopyTile | main.c:254-269 | pasting one tile writes exactly its in-image pixels into their row-major places and leaves every other byte as it was |
| Grid.BlockStep | main.c:237-270 | pasting block (bx, by) over the image assembled so far gives the image assembled up to the next block |
| Grid.RowStep | main.c:237-238 | finishing a row of blocks is the same as starting the next row |
| Grid.AllRowsDone | main.c:237-271 | after the last row, every output byte holds its tile's byte, whatever the buffer held before |
| Grid.DecodeDxtImage | main.c:224-271 | the buffer is newly allocated, is 4·w·h bytes, and equals the assembly of all decoded tiles, with the edges clipped |
| Grid.AssemblePixel | main.c:256-267 | byte c of pixel (x, y) in the assembled image is byte c of tile pixel (y%4)·4 + x%4 of block (x/4, y/4) |
| Grid.DecodedImagePixel | main.c:224-271 | channel c of output pixel (x, y), at `(y*w+x)*4 + c`, is channel c of the colour decoded for that pixel from its block |
| Grid.CompressedSize | main.c:225-228 | for sides that are multiples of 4, DXT1 data is half a byte per pixel and DXT3/DXT5 data one byte per pixel |
| Blp.ParseEncode | main.c:13-25 | every header with fields of their declared widths is read back unchanged from the 1172 bytes it is written as |
| Blp.EncodeParse | main.c:13-25 | any 1172 bytes are written back exactly from the header read out of them, so the packed layout is a bijection |
| Blp.KindOfAlphaType | main.c:402-413 | alpha type 0, 1 and 7 select DXT1, DXT3 and DXT5, and no other alpha type selects any; block size is 8 for DXT1 and 16 otherwise, as at line 228 |
| Blp.Dispatch | main.c:350-415 | as written: a wrong magic fails first; then a zero offset or length; then a short read; compression other than 2 decodes nothing; compression 2 with alpha type 0/1/7 decodes that mipmap's bytes, any other alpha type is unsupported |
| Blp.DispatchReadsCheckedFields | main.c:350-415 | the type, alpha depth, mipmap flag, later mipmaps and palette never change the outcome |
| Blp.DispatchChecked | main.c:350-415 | every plan it accepts can be decoded safely; where Dispatch's plan could not be, it fails with ImageTooLarge or TruncatedImage, and otherwise it agrees with Dispatch |
| Blp.Classify | main.c:342-415 | as written: a file shorter than the header fails the header read, and nothing else does; an accepted file starts with the magic; a decoded one has compression 2, a supported alpha type, the width and height of bytes 12..19 and a mipmap of the length in bytes 84..87 |
| Blp.ConvertBlp | main.c:335-415 | for a file whose plan the decoder can carry out, the outcome is the as-written classification, and the image is the decoded first mipmap exactly when that is decoded |
| Blp.ClassifyChecked | main.c:342-415 | it agrees with Classify exactly on the convertible files, and fails with ImageTooLarge or TruncatedImage on every other file; every plan it accepts is decodable |
| Blp.ConvertBlpChecked | main.c:335-415 | for every file, the outcome is the checked classification, and the image is the decoded first mipmap exactly when that is decoded |
| Blp.DispatchAcceptsTruncatedMip | main.c:381-415 | the file made of an 8×8 DXT1 header and an 8-byte mipmap is classified for decoding with those 8 bytes, although its blocks need 32; it is not convertible, and the checked classification rejects it as TruncatedImage |
| Blp.OutputBytesWrap | main.c:227-230 | for a 32768×32768 image, the uint32_t buffer size `total_pixels * 4` wraps to 0 |
| Blp.CheckedPlanFitsBuffer | main.c:227-230 | for every plan the checked dispatch accepts, the uint32_t buffer size equals the true 4·w·h |
| Paths.LastIndexOf | main.c:80 | strrchr finds the last occurrence, and finds nothing exactly when the character does not occur |
| Paths.SplitName | main.c:79-91 | filename ++ extension is the base name; the extension is empty exactly when no '.' follows the first character; otherwise it starts with the last '.' and the filename is non-empty |
| Paths.SplitJoin | main.c:79-91 | a non-empty name joined to a dot-extension without further dots splits back into those two parts |
| Paths.EqualsIgnoreCase | main.c:54-64 | strcasecmp reports equality exactly when the two strings are equal in lower case |
| Paths.MatchesAny | main.c:61-69 | the walk over the name list succeeds exactly when some name on it matches, ignoring case |
| Paths.ValidFormatLower | main.c:61-69 | a format is accepted exactly when its lower-case form is png, bmp, tga or jpg |
| Paths.ValidFormatSelects | main.c:53-69 | an accepted format selects the format whose name is its lower-case form |
| Paths.FormatTypeOfName | main.c:53-69 | each format's name, written in any case, is accepted and selects that format |
| Paths.InvalidFormatIsPng | main.c:53-59 | a format that is not accepted falls back to PNG |

## Left out

- File I/O (`fopen`, `fread`, `fseek`, `fclose`) is modelled as slicing the file's bytes. Error
  messages and `perror` are modelled as the error value only.
- Host endianness: the packed-struct `fread` and the `memcpy` into a `uint64_t` are read as
  little-endian.
- The image writers (PNG, BMP, TGA and JPG, from `stb_image_write`) belong to a foreign
  library. The model ends at the decoded pixel buffer.
- Command-line parsing, the help text and the batch loop over input files are left out.
- `printf` output is left out. That covers the verbose pixel dump at main.c:317-330, which
  reads a 4×4 corner even of a smaller image, and the verbose header labels at
  main.c:358-359, which index arrays by unchecked header fields.
- `dirname`, `basename` and memory management (`strdup`, `malloc`, `free`) are left out.
  `Paths.SplitName` takes the base name as given.
- The malloc failure paths are left out. So is the behaviour of `malloc(total_pixels * 4)`
  when the size is unusable; the wrap to 0 is the second finding.
- The `snprintf` output path and its 512-byte truncation are left out.
- The `alpha_indices` memcpy at main.c:176-177 is left out: its result is never used.
- JPEG, palettized and uncompressed BLP bodies are not decoded by the code. For those,
  `Blp.Plan.NotDxt` records that nothing is decoded.
- Grid.DecodeDxtImage: it requires `FitsIndices`, so it does not model images of more than
  2^29 pixels. For those the uint32_t `total_pixels * 4` can wrap, or the largest `int` byte
  index, 4·w·h - 1, can exceed 2^31 - 1. `Blp.DispatchChecked` is the dispatch that
  guarantees the precondition.
- Blp.ConvertBlp: it requires `Convertible`, so it does not model the conversion of a file
  whose mipmap is short or whose image exceeds 2^31 output bytes. There the code reads or
  writes out of bounds; see "Findings". `Blp.ConvertBlpChecked` handles every file.
- Grid.DecodeDxtImage: it requires the mipmap to hold every block. The code reads past the
  mipmap when it is shorter; see the first finding.
- Dxt.ColorIndexLayout: `dxt1_block[7] << 24` at main.c:108 shifts a promoted signed `int`,
  which C leaves undefined when byte 7 is 128 or more. The model takes the usual result,
  which has the same 32 bits as the unsigned word.
- The DXT decoders' `dxt_type` switch (main.c:242-252) has no default case. The model's
  `DxtKind` has exactly the three kinds the dispatch produces, so that path does not arise.

## Findings

| source | as written | input that shows it | evidently intended | confidence | as-written member | corrected member |
|---|---|---|---|---|---|---|
| main.c:381-415 | the first mipmap is decoded without comparing `mipmap_lengths[0]` with `blocks_wide * blocks_high * block_size`, so the block loop at line 240 reads past the `length`-byte buffer | an 8×8 DXT1 header whose first mipmap is 8 bytes long: the loop reads four 8-byte blocks from an 8-byte allocation | reject a mipmap shorter than its blocks | not executed | Blp.DispatchAcceptsTruncatedMip | Blp.DispatchChecked |
| main.c:227-230 | `total_pixels = width * height` and `total_pixels * 4` are computed in uint32_t, so the buffer size wraps, while the pixel loop writes up to `4*w*h` bytes | width = height = 32768: the buffer size is 0 and the loop writes 2^32 bytes | reject images of more than 2^31 output bytes, for which the buffer size or an `int` byte index would overflow | not executed | Blp.OutputBytesWrap | Blp.DispatchChecked, Blp.CheckedPlanFitsBuffer |
