/**
  The block-grid decoder: a w x h image compressed as ceil(w/4) x ceil(h/4) blocks,
  stored row by row, becomes a w x h RGBA image, 4 bytes a pixel, row-major. Each
  block is decoded into a 4x4 tile; tile pixels that fall outside the image (at
  the right and bottom edges) are dropped.
 */
module Grid {
  import opened Bytes
  import opened Dxt

  /** The three block formats, C's dxt_type 1, 3 and 5. */
  datatype DxtKind = Dxt1 | Dxt3 | Dxt5

  /** Bytes per block: 8 for DXT1, 16 for DXT3 and DXT5. */
  function BlockSize(kind: DxtKind): nat
  {
    if kind == Dxt1 then 8 else 16
  }

  /** The number of 4-pixel blocks across n pixels, `(n + 3) / 4`, rounding up. */
  function BlocksAcross(n: nat): (b: nat)
    ensures n <= 4 * b < n + 4
  {
    (n + 3) / 4
  }

  /** The bytes of compressed data a w x h image needs. */
  function RequiredBytes(width: nat, height: nat, kind: DxtKind): nat
  {
    BlocksAcross(width) * BlocksAcross(height) * BlockSize(kind)
  }

  // ---------------------------------------------------------------------------
  // Row-major arithmetic.

  lemma MulLe(a: nat, b: nat, m: nat)
    requires a <= b
    ensures a * m <= b * m
  {
    assert b * m == a * m + (b - a) * m;
  }

  /** Position (x, y) of a w-wide row-major grid of n rows lies inside its w * n cells. */
  lemma RowMajorBound(w: nat, n: nat, x: nat, y: nat)
    requires x < w && y < n
    ensures y * w + x < w * n
  {
    MulLe(y + 1, n, w);
  }

  /** Two positions of a w-wide row-major grid share an offset only if they are the same. */
  lemma RowMajorInjective(w: nat, x: nat, y: nat, x2: nat, y2: nat)
    requires x < w && x2 < w && y * w + x == y2 * w + x2
    ensures x == x2 && y == y2
  {
    if y < y2 {
      MulLe(y + 1, y2, w);
    } else if y2 < y {
      MulLe(y2 + 1, y, w);
    }
  }

  /** Cell p of a w-wide grid of n rows is in column p % w and row p / w, inside the grid. */
  lemma GridCell(w: nat, n: nat, p: nat)
    requires p < w * n
    ensures w > 0 && p % w < w && p / w < n
  {
    if p / w >= n {
      MulLe(n, p / w, w);
    }
  }

  /** The cell at column x and row y of a w-wide grid is numbered y * w + x. */
  lemma GridCellOf(w: nat, x: nat, y: nat)
    requires x < w
    ensures (y * w + x) % w == x && (y * w + x) / w == y
  {
    var p := y * w + x;
    RowMajorInjective(w, x, y, p % w, p / w);
  }

  /** The byte for channel c of pixel (x, y) of a w x h image, `(y * width + x) * 4 + c`; it is inside the image. */
  function Index(width: nat, height: nat, x: nat, y: nat, c: nat): (k: nat)
    requires x < width && y < height && c < 4
    ensures k < 4 * width * height
  {
    RowMajorBound(width, height, x, y);
    (y * width + x) * 4 + c
  }

  /** Byte j of a w x h image belongs to the pixel in column (j / 4) % w ... */
  function Column(width: nat, height: nat, j: nat): (x: nat)
    requires j < 4 * width * height
    ensures x < width
  {
    GridCell(width, height, j / 4);
    (j / 4) % width
  }

  /** ... and row (j / 4) / w. */
  function Row(width: nat, height: nat, j: nat): (y: nat)
    requires j < 4 * width * height
    ensures y < height
  {
    GridCell(width, height, j / 4);
    (j / 4) / width
  }

  /** Every byte of a w x h image is one channel of one pixel. */
  lemma IndexCovers(width: nat, height: nat, j: nat)
    requires j < 4 * width * height
    ensures Index(width, height, Column(width, height, j), Row(width, height, j), j % 4) == j
  {
    GridCell(width, height, j / 4);
  }

  /** The byte `Index` places channel c of pixel (x, y) at belongs to that pixel and channel. */
  lemma PixelOfIndex(width: nat, height: nat, x: nat, y: nat, c: nat)
    requires x < width && y < height && c < 4
    ensures Column(width, height, Index(width, height, x, y, c)) == x
    ensures Row(width, height, Index(width, height, x, y, c)) == y
    ensures Index(width, height, x, y, c) % 4 == c
  {
    var j := Index(width, height, x, y, c);
    assert j / 4 == y * width + x && j % 4 == c;
    GridCellOf(width, x, y);
  }

  // ---------------------------------------------------------------------------
  // Blocks and pixels.

  /** The number of block (blockX, blockY) in row-major block order, `blockY * blocks_wide + blockX`; it is one of the grid's blocks. */
  function BlockNumber(width: nat, height: nat, blockX: nat, blockY: nat): (k: nat)
    requires blockX < BlocksAcross(width) && blockY < BlocksAcross(height)
    ensures k < BlocksAcross(width) * BlocksAcross(height)
  {
    RowMajorBound(BlocksAcross(width), BlocksAcross(height), blockX, blockY);
    blockY * BlocksAcross(width) + blockX
  }

  /** Block k starts at byte `k * block_size` and ends within the grid's data. */
  lemma BlockInRange(width: nat, height: nat, kind: DxtKind, k: nat)
    requires k < BlocksAcross(width) * BlocksAcross(height)
    ensures k * BlockSize(kind) + BlockSize(kind) <= RequiredBytes(width, height, kind)
  {
    MulLe(k + 1, BlocksAcross(width) * BlocksAcross(height), BlockSize(kind));
  }

  /** The compressed bytes of block k. */
  function BlockAt(image: seq<byte>, width: nat, height: nat, kind: DxtKind, k: nat): (block: seq<byte>)
    requires |image| >= RequiredBytes(width, height, kind)
    requires k < BlocksAcross(width) * BlocksAcross(height)
    ensures |block| == BlockSize(kind)
  {
    BlockInRange(width, height, kind, k);
    image[k * BlockSize(kind)..k * BlockSize(kind) + BlockSize(kind)]
  }

  /** The 16 pixels a block stands for, by its format. */
  function DecodeBlock(kind: DxtKind, block: seq<byte>): (px: seq<Rgba>)
    requires |block| == BlockSize(kind)
    ensures |px| == 16
  {
    match kind
    case Dxt1 => Dxt1Pixels(block)
    case Dxt3 => Dxt3Pixels(block)
    case Dxt5 => Dxt5Pixels(block)
  }

  /** Pixel (x, y) of the decoded image: pixel (x % 4, y % 4) of the tile of block (x / 4, y / 4). */
  function ImagePixel(image: seq<byte>, width: nat, height: nat, kind: DxtKind, x: nat, y: nat): Rgba
    requires |image| >= RequiredBytes(width, height, kind)
    requires x < width && y < height
  {
    DecodeBlock(kind, BlockAt(image, width, height, kind, BlockNumber(width, height, x / 4, y / 4)))[(y % 4) * 4 + x % 4]
  }

  // ---------------------------------------------------------------------------
  // Tiles and their assembly into the image.

  /** One 64-byte tile per block of a w x h image. */
  predicate TilesFor(tiles: seq<seq<byte>>, width: nat, height: nat)
  {
    |tiles| == BlocksAcross(width) * BlocksAcross(height) && forall k :: 0 <= k < |tiles| ==> |tiles[k]| == 64
  }

  /** The decoded tiles of every block, in row-major block order. */
  function Tiles(image: seq<byte>, width: nat, height: nat, kind: DxtKind): (tiles: seq<seq<byte>>)
    requires |image| >= RequiredBytes(width, height, kind)
    ensures TilesFor(tiles, width, height)
  {
    var n := BlocksAcross(width) * BlocksAcross(height);
    seq(n, k requires 0 <= k < n => TileBytes(DecodeBlock(kind, BlockAt(image, width, height, kind, k))))
  }

  /** The block that byte j of a w x h image comes from. */
  function BlockOf(width: nat, height: nat, j: nat): (k: nat)
    requires j < 4 * width * height
    ensures k < BlocksAcross(width) * BlocksAcross(height)
  {
    BlockNumber(width, height, Column(width, height, j) / 4, Row(width, height, j) / 4)
  }

  /** The byte for channel c of pixel (px, py) of a tile, `(py * 4 + px) * 4 + c`; it is inside the 64-byte tile. */
  function TileIndex(px: nat, py: nat, c: nat): (k: nat)
    requires px < 4 && py < 4 && c < 4
    ensures k < 64
  {
    (py * 4 + px) * 4 + c
  }

  /** The byte of its block's tile that byte j of a w x h image is. */
  function TileByteOf(width: nat, height: nat, j: nat): (t: nat)
    requires j < 4 * width * height
    ensures t < 64
  {
    TileIndex(Column(width, height, j) % 4, Row(width, height, j) % 4, j % 4)
  }

  /** The image the tiles make: every byte taken from its place in its block's tile. */
  function Assemble(tiles: seq<seq<byte>>, width: nat, height: nat): (out: seq<byte>)
    requires TilesFor(tiles, width, height)
    ensures |out| == 4 * width * height
  {
    seq(4 * width * height, j requires 0 <= j < 4 * width * height => tiles[BlockOf(width, height, j)][TileByteOf(width, height, j)])
  }

  /** The decoded image as a byte string. */
  function DecodedImage(image: seq<byte>, width: nat, height: nat, kind: DxtKind): (out: seq<byte>)
    requires |image| >= RequiredBytes(width, height, kind)
    ensures |out| == 4 * width * height
  {
    Assemble(Tiles(image, width, height, kind), width, height)
  }

  // ---------------------------------------------------------------------------
  // The decoder.

  /** Decodes one block into the 64-byte tile, by the block's format. */
  method DecodeBlockInto(kind: DxtKind, block: seq<byte>, tile: array<byte>)
    requires |block| == BlockSize(kind) && tile.Length == 64
    modifies tile
    ensures tile[..] == TileBytes(DecodeBlock(kind, block))
  {
    match kind
    case Dxt1 => Dxt1ToRgba(block, tile);
    case Dxt3 => Dxt3ToRgba(block, tile);
    case Dxt5 => Dxt5ToRgba(block, tile);
  }

  /** Decodes block (blockX, blockY), found at byte `(blockY * blocks_wide + blockX) * block_size`, into the tile. */
  method DecodeBlockAt(image: seq<byte>, width: nat, height: nat, kind: DxtKind, blockX: nat, blockY: nat, tile: array<byte>)
    requires |image| >= RequiredBytes(width, height, kind)
    requires blockX < BlocksAcross(width) && blockY < BlocksAcross(height) && tile.Length == 64
    modifies tile
    ensures tile[..] == Tiles(image, width, height, kind)[BlockNumber(width, height, blockX, blockY)]
  {
    var blocksWide := BlocksAcross(width);
    var blockSize := BlockSize(kind);
    BlockInRange(width, height, kind, BlockNumber(width, height, blockX, blockY));
    var offset := (blockY * blocksWide + blockX) * blockSize;
    var block := image[offset..offset + blockSize];
    assert block == BlockAt(image, width, height, kind, BlockNumber(width, height, blockX, blockY));
    DecodeBlockInto(kind, block, tile);
  }

  /** s with the bytes from position `at` on replaced by t. */
  function Overwrite(s: seq<byte>, at: nat, t: seq<byte>): (r: seq<byte>)
    requires at + |t| <= |s|
    ensures |r| == |s|
  {
    seq(|s|, k requires 0 <= k < |s| => if at <= k < at + |t| then t[k - at] else s[k])
  }

  /** Copies one pixel's four bytes from the tile into the image. */
  method CopyPixel(tile: array<byte>, src: nat, out: array<byte>, dst: nat)
    requires src + 4 <= tile.Length && dst + 4 <= out.Length && tile != out
    modifies out
    ensures out[..] == Overwrite(old(out[..]), dst, tile[src..src + 4])
  {
    out[dst] := tile[src];
    out[dst + 1] := tile[src + 1];
    out[dst + 2] := tile[src + 2];
    out[dst + 3] := tile[src + 3];
  }

  /** Image pixel (x, y) is pixel (x % 4, y % 4) of the tile of block (blockX, blockY). */
  predicate InBlock(blockX: nat, blockY: nat, x: nat, y: nat)
  {
    x / 4 == blockX && y / 4 == blockY
  }

  /** The position in its tile, in row-major tile order, of the pixel that byte j belongs to. */
  function TilePosition(width: nat, height: nat, j: nat): nat
    requires j < 4 * width * height
  {
    (Row(width, height, j) % 4) * 4 + Column(width, height, j) % 4
  }

  /**
    `image` with the first `limit` tile pixels (in row-major tile order) of block
    (blockX, blockY) copied from `tile` to their places, those that fall inside the
    image; every other byte as it was.
   */
  function Paste(image: seq<byte>, tile: seq<byte>, width: nat, height: nat, blockX: nat, blockY: nat, limit: nat): (r: seq<byte>)
    requires |image| == 4 * width * height && |tile| == 64
    ensures |r| == |image|
  {
    seq(|image|, j requires 0 <= j < |image| =>
      if InBlock(blockX, blockY, Column(width, height, j), Row(width, height, j)) && TilePosition(width, height, j) < limit
      then tile[TileByteOf(width, height, j)]
      else image[j])
  }

  /** A tile pixel past the right or bottom edge of the image is not pasted. */
  lemma SkipStep(image: seq<byte>, tile: seq<byte>, width: nat, height: nat, blockX: nat, blockY: nat, px: nat, py: nat)
    requires |image| == 4 * width * height && |tile| == 64
    requires px < 4 && py < 4
    requires blockX * 4 + px >= width || blockY * 4 + py >= height
    ensures Paste(image, tile, width, height, blockX, blockY, py * 4 + px + 1) == Paste(image, tile, width, height, blockX, blockY, py * 4 + px)
  {
    var before := Paste(image, tile, width, height, blockX, blockY, py * 4 + px);
    var after := Paste(image, tile, width, height, blockX, blockY, py * 4 + px + 1);
    forall j | 0 <= j < |image|
      ensures after[j] == before[j]
    {
      var x, y := Column(width, height, j), Row(width, height, j);
      if InBlock(blockX, blockY, x, y) {
        assert x == blockX * 4 + x % 4 && y == blockY * 4 + y % 4;
      }
    }
  }

  /** Channel c of the image pixel that tile pixel (px, py) lands on holds the tile's byte once that pixel is pasted. */
  lemma PastedByte(image: seq<byte>, tile: seq<byte>, width: nat, height: nat, blockX: nat, blockY: nat, px: nat, py: nat, c: nat)
    requires |image| == 4 * width * height && |tile| == 64
    requires px < 4 && py < 4 && blockX * 4 + px < width && blockY * 4 + py < height && c < 4
    ensures Paste(image, tile, width, height, blockX, blockY, py * 4 + px + 1)[Index(width, height, blockX * 4 + px, blockY * 4 + py, c)]
      == tile[TileIndex(px, py, c)]
  {
    var x0, y0 := blockX * 4 + px, blockY * 4 + py;
    PixelOfIndex(width, height, x0, y0, c);
    assert x0 / 4 == blockX && x0 % 4 == px && y0 / 4 == blockY && y0 % 4 == py;
  }

  /** A byte of any other image pixel is the same whether or not tile pixel (px, py) is pasted. */
  lemma UnpastedByte(image: seq<byte>, tile: seq<byte>, width: nat, height: nat, blockX: nat, blockY: nat, px: nat, py: nat, j: nat)
    requires |image| == 4 * width * height && |tile| == 64 && j < |image|
    requires px < 4 && py < 4
    requires Column(width, height, j) != blockX * 4 + px || Row(width, height, j) != blockY * 4 + py
    ensures Paste(image, tile, width, height, blockX, blockY, py * 4 + px + 1)[j] == Paste(image, tile, width, height, blockX, blockY, py * 4 + px)[j]
  {
    var x, y := Column(width, height, j), Row(width, height, j);
    if InBlock(blockX, blockY, x, y) {
      assert x == blockX * 4 + x % 4 && y == blockY * 4 + y % 4;
    }
  }

  /** Copying tile pixel (px, py) to image pixel (4 blockX + px, 4 blockY + py) pastes one more pixel. */
  lemma CopyStep(image: seq<byte>, tile: seq<byte>, width: nat, height: nat, blockX: nat, blockY: nat, px: nat, py: nat)
    requires |image| == 4 * width * height && |tile| == 64
    requires px < 4 && py < 4 && blockX * 4 + px < width && blockY * 4 + py < height
    ensures var dst := Index(width, height, blockX * 4 + px, blockY * 4 + py, 0);
      dst + 4 <= |image| &&
      Overwrite(Paste(image, tile, width, height, blockX, blockY, py * 4 + px), dst, tile[TileIndex(px, py, 0)..TileIndex(px, py, 0) + 4])
        == Paste(image, tile, width, height, blockX, blockY, py * 4 + px + 1)
  {
    var x0, y0 := blockX * 4 + px, blockY * 4 + py;
    var dst := Index(width, height, x0, y0, 0);
    var src := TileIndex(px, py, 0);
    assert dst + 3 == Index(width, height, x0, y0, 3);
    var before := Paste(image, tile, width, height, blockX, blockY, py * 4 + px);
    var after := Paste(image, tile, width, height, blockX, blockY, py * 4 + px + 1);
    var copied := Overwrite(before, dst, tile[src..src + 4]);
    forall j | 0 <= j < |image|
      ensures copied[j] == after[j]
    {
      if dst <= j < dst + 4 {
        var c := j - dst;
        assert j == Index(width, height, x0, y0, c);
        assert src + c == TileIndex(px, py, c);
        PastedByte(image, tile, width, height, blockX, blockY, px, py, c);
      } else {
        IndexCovers(width, height, j);
        UnpastedByte(image, tile, width, height, blockX, blockY, px, py, j);
      }
    }
  }

  /** Copies the tile of block (blockX, blockY) into the image, skipping pixels past the right or bottom edge. */
  method CopyTile(tile: array<byte>, out: array<byte>, width: nat, height: nat, blockX: nat, blockY: nat)
    requires tile.Length == 64 && out.Length == 4 * width * height && tile != out
    modifies out
    ensures out[..] == Paste(old(out[..]), tile[..], width, height, blockX, blockY, 16)
  {
    ghost var start := out[..];
    for py := 0 to 4
      invariant out[..] == Paste(start, tile[..], width, height, blockX, blockY, py * 4)
    {
      for px := 0 to 4
        invariant out[..] == Paste(start, tile[..], width, height, blockX, blockY, py * 4 + px)
      {
        var x := blockX * 4 + px;
        var y := blockY * 4 + py;
        if x >= width || y >= height {
          SkipStep(start, tile[..], width, height, blockX, blockY, px, py);
          continue;
        }
        var srcIdx := (py * 4 + px) * 4;
        var dstIdx := (y * width + x) * 4;
        CopyStep(start, tile[..], width, height, blockX, blockY, px, py);
        assert dstIdx == Index(width, height, x, y, 0) && srcIdx == TileIndex(px, py, 0);
        CopyPixel(tile, srcIdx, out, dstIdx);
      }
    }
  }

  /** Pixels of blocks before (blockX, blockY) in row-major block order. */
  predicate Before(blockX: nat, blockY: nat, x: nat, y: nat)
  {
    y / 4 < blockY || (y / 4 == blockY && x / 4 < blockX)
  }

  /** `initial` with the pixels of the blocks before (blockX, blockY) assembled from their tiles. */
  function AssembledUpTo(initial: seq<byte>, tiles: seq<seq<byte>>, width: nat, height: nat, blockX: nat, blockY: nat): (r: seq<byte>)
    requires TilesFor(tiles, width, height) && |initial| == 4 * width * height
    ensures |r| == |initial|
  {
    seq(|initial|, j requires 0 <= j < |initial| =>
      if Before(blockX, blockY, Column(width, height, j), Row(width, height, j)) then Assemble(tiles, width, height)[j]
      else initial[j])
  }

  /** Pasting the tile of block (blockX, blockY) assembles one more block. */
  lemma BlockStep(initial: seq<byte>, tiles: seq<seq<byte>>, width: nat, height: nat, blockX: nat, blockY: nat)
    requires TilesFor(tiles, width, height) && |initial| == 4 * width * height
    requires blockX < BlocksAcross(width) && blockY < BlocksAcross(height)
    ensures Paste(AssembledUpTo(initial, tiles, width, height, blockX, blockY), tiles[BlockNumber(width, height, blockX, blockY)],
                  width, height, blockX, blockY, 16)
      == AssembledUpTo(initial, tiles, width, height, blockX + 1, blockY)
  {
    var before := AssembledUpTo(initial, tiles, width, height, blockX, blockY);
    var after := AssembledUpTo(initial, tiles, width, height, blockX + 1, blockY);
    var pasted := Paste(before, tiles[BlockNumber(width, height, blockX, blockY)], width, height, blockX, blockY, 16);
    forall j | 0 <= j < |initial|
      ensures pasted[j] == after[j]
    {
      var x, y := Column(width, height, j), Row(width, height, j);
      if InBlock(blockX, blockY, x, y) {
        assert BlockOf(width, height, j) == BlockNumber(width, height, blockX, blockY);
      }
    }
  }

  /** Finishing the last block of a row of blocks is starting the next row. */
  lemma RowStep(initial: seq<byte>, tiles: seq<seq<byte>>, width: nat, height: nat, blockY: nat)
    requires TilesFor(tiles, width, height) && |initial| == 4 * width * height
    ensures AssembledUpTo(initial, tiles, width, height, BlocksAcross(width), blockY)
      == AssembledUpTo(initial, tiles, width, height, 0, blockY + 1)
  {
    var before := AssembledUpTo(initial, tiles, width, height, BlocksAcross(width), blockY);
    var after := AssembledUpTo(initial, tiles, width, height, 0, blockY + 1);
    forall j | 0 <= j < |initial|
      ensures before[j] == after[j]
    {
      assert Column(width, height, j) / 4 < BlocksAcross(width);
    }
  }

  /** Once every row of blocks is done, nothing of the initial contents is left. */
  lemma AllRowsDone(initial: seq<byte>, tiles: seq<seq<byte>>, width: nat, height: nat)
    requires TilesFor(tiles, width, height) && |initial| == 4 * width * height
    ensures AssembledUpTo(initial, tiles, width, height, 0, BlocksAcross(height)) == Assemble(tiles, width, height)
  {
    var done := AssembledUpTo(initial, tiles, width, height, 0, BlocksAcross(height));
    forall j | 0 <= j < |initial|
      ensures done[j] == Assemble(tiles, width, height)[j]
    {
      assert Row(width, height, j) / 4 < BlocksAcross(height);
    }
  }

  /** One pass of the decoder's inner loop: decodes block (blockX, blockY) into the tile and copies the tile into the image. */
  method DecodeBlockTo(image: seq<byte>, width: nat, height: nat, kind: DxtKind, blockX: nat, blockY: nat, tile: array<byte>, out: array<byte>)
    requires |image| >= RequiredBytes(width, height, kind)
    requires blockX < BlocksAcross(width) && blockY < BlocksAcross(height)
    requires tile.Length == 64 && out.Length == 4 * width * height && tile != out
    modifies tile, out
    ensures out[..] == Paste(old(out[..]), Tiles(image, width, height, kind)[BlockNumber(width, height, blockX, blockY)], width, height, blockX, blockY, 16)
  {
    DecodeBlockAt(image, width, height, kind, blockX, blockY, tile);
    CopyTile(tile, out, width, height, blockX, blockY);
  }

  /**
    The sizes for which the decoder's arithmetic does not overflow: width and
    height are uint32_t, and every byte index `(y * width + x) * 4 + c` written,
    at most 4 w h - 1, must fit the int it is computed in.
   */
  predicate FitsIndices(width: nat, height: nat)
  {
    width < 0x1_0000_0000 && height < 0x1_0000_0000 && 4 * width * height <= 0x8000_0000
  }

  /** The bound is exact: 16384 x 32768 pixels are 2^31 bytes, whose last index 2^31 - 1 is the largest int; one row more is too many. */
  lemma FitsIndicesBoundary()
    ensures FitsIndices(16384, 32768) && !FitsIndices(16384, 32769)
  {
  }

  /**
    For the sizes the decoder handles, the block offsets `(by * blocks_wide + bx) * block_size`
    the C computes in uint32_t arithmetic never wrap: the whole block data is under 2^32 bytes.
   */
  lemma BlockOffsetsFit(width: nat, height: nat, kind: DxtKind)
    requires FitsIndices(width, height)
    ensures RequiredBytes(width, height, kind) < 0x1_0000_0000
  {
    var blocks := BlocksAcross(width) * BlocksAcross(height);
    assert RequiredBytes(width, height, kind) <= 16 * blocks by {
      MulLe(BlockSize(kind), 16, blocks);
    }
    if width > 0 && height > 0 {
      var area := width * height;
      assert 4 * area <= 0x8000_0000 by {
        assert 4 * width * height == 4 * area;
      }
      BlockArea(width, height, area);
    }
  }

  /** The blocks covering a w x h rectangle of area a (w, h > 0) have at most 4 a + 12 cells. */
  lemma BlockArea(width: nat, height: nat, area: nat)
    requires 0 < width && 0 < height && area == width * height
    ensures 16 * (BlocksAcross(width) * BlocksAcross(height)) <= 4 * area + 12
  {
    PaddedArea(width, height, BlocksAcross(width), BlocksAcross(height));
  }

  /** The 4 bw x 4 bh cells of the blocks covering a w x h rectangle (w, h > 0) are at most 4 w h + 12. */
  lemma PaddedArea(w: nat, h: nat, bw: nat, bh: nat)
    requires 0 < w && 0 < h && 4 * bw <= w + 3 && 4 * bh <= h + 3
    ensures 16 * (bw * bh) <= 4 * (w * h) + 12
  {
    var a, b := 4 * bw, 4 * bh;
    assert a * b == 16 * (bw * bh);
    MulLe(a, w + 3, b);
    MulLe(b, h + 3, w + 3);
    assert (w + 3) * (h + 3) == w * h + 3 * w + 3 * h + 9;
    MulLe(1, w, h - 1);
    assert w * (h - 1) == w * h - w;
  }

  /**
    Decodes a w x h image from its compressed blocks. The C computes the indices in
    32-bit arithmetic (dst_idx is an int), so the image may have at most 2^31
    output bytes; the compressed data must hold every block. The buffer is newly allocated.
   */
  method DecodeDxtImage(image: seq<byte>, width: nat, height: nat, kind: DxtKind) returns (out: array<byte>)
    requires FitsIndices(width, height)
    requires |image| >= RequiredBytes(width, height, kind)
    ensures fresh(out)
    ensures out[..] == DecodedImage(image, width, height, kind)
  {
    var blocksWide := BlocksAcross(width);
    var blocksHigh := BlocksAcross(height);
    out := new byte[4 * width * height];
    ghost var initial := out[..];
    ghost var tiles := Tiles(image, width, height, kind);
    var tile := new byte[64];
    for blockY := 0 to blocksHigh
      invariant out[..] == AssembledUpTo(initial, tiles, width, height, 0, blockY)
    {
      for blockX := 0 to blocksWide
        invariant out[..] == AssembledUpTo(initial, tiles, width, height, blockX, blockY)
      {
        BlockStep(initial, tiles, width, height, blockX, blockY);
        DecodeBlockTo(image, width, height, kind, blockX, blockY, tile, out);
      }
      RowStep(initial, tiles, width, height, blockY);
    }
    AllRowsDone(initial, tiles, width, height);
  }

  // ---------------------------------------------------------------------------
  // Properties of the grid.

  /** Pixel (x, y)'s bytes in the assembled image are its bytes in block (x / 4, y / 4)'s tile. */
  lemma AssemblePixel(tiles: seq<seq<byte>>, width: nat, height: nat, x: nat, y: nat, c: nat)
    requires TilesFor(tiles, width, height)
    requires x < width && y < height && c < 4
    ensures Assemble(tiles, width, height)[Index(width, height, x, y, c)] ==
      tiles[BlockNumber(width, height, x / 4, y / 4)][TileIndex(x % 4, y % 4, c)]
  {
    PixelOfIndex(width, height, x, y, c);
  }

  /** Channel c of pixel (x, y) of the decoded image is at `(y * width + x) * 4 + c` and is channel c of that pixel's colour. */
  lemma DecodedImagePixel(image: seq<byte>, width: nat, height: nat, kind: DxtKind, x: nat, y: nat, c: nat)
    requires |image| >= RequiredBytes(width, height, kind)
    requires x < width && y < height && c < 4
    ensures DecodedImage(image, width, height, kind)[Index(width, height, x, y, c)] == ImagePixel(image, width, height, kind, x, y).Channels()[c]
  {
    AssemblePixel(Tiles(image, width, height, kind), width, height, x, y, c);
    var px := DecodeBlock(kind, BlockAt(image, width, height, kind, BlockNumber(width, height, x / 4, y / 4)));
    var i := (y % 4) * 4 + x % 4;
    TileChannel(px, i, c);
    assert TileIndex(x % 4, y % 4, c) == 4 * i + c;
  }

  /** When both sides are multiples of 4, DXT1 stores half a byte a pixel and DXT3 and DXT5 one byte. */
  lemma CompressedSize(width: nat, height: nat)
    requires width % 4 == 0 && height % 4 == 0
    ensures 2 * RequiredBytes(width, height, Dxt1) == width * height
    ensures RequiredBytes(width, height, Dxt3) == width * height
    ensures RequiredBytes(width, height, Dxt5) == width * height
  {
    var a, b := width / 4, height / 4;
    assert BlocksAcross(width) == a && BlocksAcross(height) == b;
    assert width * height == 16 * (a * b) by {
      assert width == 4 * a && height == 4 * b;
    }
  }
}
