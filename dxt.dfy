/**
  The S3TC block decoders of the converter: one 8-byte DXT1 block, or one
  16-byte DXT3 or DXT5 block, becomes a 4x4 tile of RGBA pixels, written as 64
  bytes in row-major order (pixel i is at bytes 4i .. 4i+3, red first).

  Each decoder is a method that writes the tile into a 64-byte buffer, as the C
  does. Beside it is a function that states which tile the block stands for
  (Dxt1Pixels, Dxt3Pixels, Dxt5Pixels); the method's postcondition ties the two.
 */
module Dxt {
  import opened Bytes

  /** One pixel, four 8-bit channels. */
  datatype Rgba = Rgba(r: byte, g: byte, b: byte, a: byte)
  {
    /** The pixel as it is laid out in memory. */
    function Channels(): seq<byte>
    {
      [r, g, b, a]
    }
  }

  /** Pixels laid out back to back, four bytes each. */
  function TileBytes(px: seq<Rgba>): (t: seq<byte>)
    ensures |t| == 4 * |px|
  {
    seq(4 * |px|, k requires 0 <= k < 4 * |px| => px[k / 4].Channels()[k % 4])
  }

  /** Pixel i occupies bytes 4i .. 4i+3 of its tile, red first. */
  lemma TilePixel(px: seq<Rgba>, i: nat)
    requires i < |px|
    ensures TileBytes(px)[4 * i..4 * i + 4] == px[i].Channels()
    ensures var t := TileBytes(px);
      t[4 * i] == px[i].r && t[4 * i + 1] == px[i].g && t[4 * i + 2] == px[i].b && t[4 * i + 3] == px[i].a
  {
    assert (4 * i + 1) / 4 == i && (4 * i + 2) / 4 == i && (4 * i + 3) / 4 == i;
    assert (4 * i + 1) % 4 == 1 && (4 * i + 2) % 4 == 2 && (4 * i + 3) % 4 == 3;
  }

  /** Byte c of pixel i of a tile. */
  lemma TileChannel(px: seq<Rgba>, i: nat, c: nat)
    requires i < |px| && c < 4
    ensures TileBytes(px)[4 * i + c] == px[i].Channels()[c]
  {
    assert (4 * i + c) / 4 == i && (4 * i + c) % 4 == c;
  }

  /** Writing pixel i's four bytes over a tile whose first i pixels are done makes i + 1 done. */
  lemma PixelStep(px: seq<Rgba>, rest: seq<byte>, i: nat)
    requires i < |px| && |rest| == 4 * |px|
    ensures var t := TileBytes(px);
      (t[..4 * i] + rest[4 * i..])[4 * i := px[i].r][4 * i + 1 := px[i].g][4 * i + 2 := px[i].b][4 * i + 3 := px[i].a]
        == t[..4 * i + 4] + rest[4 * i + 4..]
  {
    TilePixel(px, i);
  }

  /**
    Over the tile of `color` whose first i pixels already have the alphas of px,
    writing pixel i's alpha makes i + 1 done, when px differs from color in alpha alone.
   */
  lemma AlphaStep(px: seq<Rgba>, color: seq<Rgba>, i: nat)
    requires |px| == |color| && i < |px| && px[i] == color[i].(a := px[i].a)
    ensures var t, c := TileBytes(px), TileBytes(color);
      (t[..4 * i] + c[4 * i..])[4 * i + 3 := px[i].a] == t[..4 * i + 4] + c[4 * i + 4..]
  {
    var t, c := TileBytes(px), TileBytes(color);
    var written := (t[..4 * i] + c[4 * i..])[4 * i + 3 := px[i].a];
    var done := t[..4 * i + 4] + c[4 * i + 4..];
    forall k | 0 <= k < |written|
      ensures written[k] == done[k]
    {
      if 4 * i <= k < 4 * i + 3 {
        TileChannel(px, i, k - 4 * i);
        TileChannel(color, i, k - 4 * i);
      } else if k == 4 * i + 3 {
        TileChannel(px, i, 3);
      }
    }
  }

  // ---------------------------------------------------------------------------
  // Colour endpoints.

  /** The three fields of an RGB565 word: red in bits 11..15, green in 5..10, blue in 0..4. */
  lemma Rgb565Fields(c: nat)
    requires c < 65536
    ensures c == 2048 * Bits(c, 11, 5) + 32 * Bits(c, 5, 6) + Bits(c, 0, 5)
  {
    Pow2Values();
    SplitAt(c, 5);
    ShiftLeftByte(ShiftRight(c, 5));
    SplitAt(ShiftRight(c, 5), 6);
    ShiftLeftByte(ShiftRight(ShiftRight(c, 5), 6));
    ShiftRightAdd(c, 5, 6);
    ShiftRightBound(c, 11, 5);
    LowBitsSmall(ShiftRight(c, 11), 5);
  }

  /** RGB565 packing of the five, six and five high bits of a colour's channels. */
  function Pack565(p: Rgba): nat
  {
    (p.r / 8) * 2048 + (p.g / 4) * 32 + p.b / 8
  }

  /**
    An RGB565 word widened to 8 bits a channel by shifting alone (the low bits are
    zero, not replicated), opaque. For red, `((c >> 11) & 0x1F) << 3` is eight
    times Bits(c, 11, 5).
   */
  function Expand565(c: nat): (p: Rgba)
    requires c < 65536
    ensures p.a == 255
    ensures p.r % 8 == 0 && p.g % 4 == 0 && p.b % 8 == 0
  {
    Pow2Values();
    Rgba(8 * Bits(c, 11, 5), 4 * Bits(c, 5, 6), 8 * Bits(c, 0, 5), 255)
  }

  /** Packing the expanded colour gives the word back: expansion loses nothing. */
  lemma Expand565RoundTrip(c: nat)
    requires c < 65536
    ensures Pack565(Expand565(c)) == c
  {
    Pow2Values();
    Rgb565Fields(c);
  }

  /** Two different words never expand to the same colour. */
  lemma Expand565Injective(c0: nat, c1: nat)
    requires c0 < 65536 && c1 < 65536
    ensures Expand565(c0) == Expand565(c1) <==> c0 == c1
  {
    Expand565RoundTrip(c0);
    Expand565RoundTrip(c1);
  }

  /** The channel one third of the way from a to b, `(2 * a + b) / 3`. */
  function Third(a: byte, b: byte): byte
  {
    (2 * a + b) / 3
  }

  /** The channel halfway between a and b, `(a + b) / 2`. */
  function Half(a: byte, b: byte): byte
  {
    (a + b) / 2
  }

  predicate Between(x: int, lo: int, hi: int)
  {
    (lo <= x <= hi) || (hi <= x <= lo)
  }

  /** Every colour channel of q lies between those of a and b. */
  predicate OnSegment(q: Rgba, a: Rgba, b: Rgba)
  {
    Between(q.r, a.r, b.r) && Between(q.g, a.g, b.g) && Between(q.b, a.b, b.b)
  }

  /**
    The four-entry palette of a DXT1 colour block. With color0 > color1 it holds
    the endpoints and the colours one and two thirds of the way between them, all
    opaque; otherwise the endpoints, their midpoint, and transparent black.
   */
  function Palette(color0: nat, color1: nat): (p: seq<Rgba>)
    requires color0 < 65536 && color1 < 65536
    ensures |p| == 4
    ensures p[0] == Expand565(color0) && p[1] == Expand565(color1)
    ensures (forall k :: 0 <= k < 4 ==> p[k].a == 255) <==> color0 > color1
    ensures color0 <= color1 ==> p[3] == Rgba(0, 0, 0, 0)
  {
    var e0, e1 := Expand565(color0), Expand565(color1);
    if color0 > color1 then
      [e0, e1,
       Rgba(Third(e0.r, e1.r), Third(e0.g, e1.g), Third(e0.b, e1.b), 255),
       Rgba(Third(e1.r, e0.r), Third(e1.g, e0.g), Third(e1.b, e0.b), 255)]
    else
      var p := [e0, e1, Rgba(Half(e0.r, e1.r), Half(e0.g, e1.g), Half(e0.b, e1.b), 255), Rgba(0, 0, 0, 0)];
      assert p[3].a != 255;
      p
  }

  /** The interpolations of one channel between endpoint values a and b. */
  lemma ChannelOrder(a: byte, b: byte)
    ensures Between(Third(a, b), a, Third(b, a)) && Between(Third(b, a), Third(a, b), b)
    ensures Between(Half(a, b), a, b)
  {
    if a <= b {
      assert Third(a, b) <= Third(b, a);
    } else {
      assert Third(b, a) <= Third(a, b);
    }
  }

  /** The interpolated colours lie between the endpoints, in the order 0, 2, 3, 1 when there are four. */
  lemma PaletteOrder(color0: nat, color1: nat)
    requires color0 < 65536 && color1 < 65536
    ensures var p := Palette(color0, color1);
      OnSegment(p[2], p[0], p[1]) &&
      (color0 > color1 ==> OnSegment(p[2], p[0], p[3]) && OnSegment(p[3], p[2], p[1]))
  {
    var e0, e1 := Expand565(color0), Expand565(color1);
    ChannelOrder(e0.r, e1.r);
    ChannelOrder(e0.g, e1.g);
    ChannelOrder(e0.b, e1.b);
  }

  // ---------------------------------------------------------------------------
  // DXT1.

  /** The first endpoint word, `block[0] | block[1] << 8`. */
  function Color0(block: seq<byte>): (c: nat)
    requires |block| >= 4
    ensures c < 65536
  {
    block[0] as nat + 256 * (block[1] as nat)
  }

  /** The second endpoint word, `block[2] | block[3] << 8`. */
  function Color1(block: seq<byte>): (c: nat)
    requires |block| >= 4
    ensures c < 65536
  {
    block[2] as nat + 256 * (block[3] as nat)
  }

  /** Pixel i's palette index: bits 2i, 2i+1 of the index word, `(color_bits >> (i * 2)) & 0x3`. */
  function ColorIndex(colorBits: nat, i: nat): (k: nat)
    ensures k < 4
  {
    Pow2Values();
    Bits(colorBits, 2 * i, 2)
  }

  /** The indices of row y are byte 4 + y, pixel x of the row in its bits 2x, 2x+1. */
  lemma ColorIndexLayout(block: seq<byte>, i: nat)
    requires |block| == 8 && i < 16
    ensures ColorIndex(Le(block[4..8]), i) == Bits(block[4 + i / 4], 2 * (i % 4), 2)
  {
    var s := block[4..8];
    BitsOfLe(s, 2 * i, 2);
    WindowInByte(s, 2 * i, 2);
    assert (2 * i) / 8 == i / 4 && (2 * i) % 8 == 2 * (i % 4);
  }

  /** The 16 pixels an 8-byte DXT1 block stands for. */
  function Dxt1Pixels(block: seq<byte>): (px: seq<Rgba>)
    requires |block| == 8
    ensures |px| == 16
  {
    var colors := Palette(Color0(block), Color1(block));
    var colorBits := Le(block[4..8]);
    seq(16, i requires 0 <= i < 16 => colors[ColorIndex(colorBits, i)])
  }

  /** Writes a pixel's four bytes, red first, at position `at` of dst. */
  method StorePixel(dst: array<byte>, at: nat, pixel: Rgba)
    requires at + 4 <= dst.Length
    modifies dst
    ensures dst[..] == old(dst[..])[at := pixel.r][at + 1 := pixel.g][at + 2 := pixel.b][at + 3 := pixel.a]
  {
    dst[at] := pixel.r;
    dst[at + 1] := pixel.g;
    dst[at + 2] := pixel.b;
    dst[at + 3] := pixel.a;
  }

  /** Decodes one DXT1 block into dst, pixel by pixel. */
  method Dxt1ToRgba(block: seq<byte>, dst: array<byte>)
    requires |block| == 8 && dst.Length == 64
    modifies dst
    ensures dst[..] == TileBytes(Dxt1Pixels(block))
  {
    var colors := Palette(Color0(block), Color1(block));
    var colorBits := Le(block[4..8]);
    ghost var initial := dst[..];
    ghost var px := Dxt1Pixels(block);
    ghost var tile := TileBytes(px);
    for i := 0 to 16
      invariant dst[..] == tile[..4 * i] + initial[4 * i..]
    {
      var index := ColorIndex(colorBits, i);
      var pixel := colors[index];
      assert pixel == px[i];
      PixelStep(px, initial, i);
      StorePixel(dst, 4 * i, pixel);
    }
    assert tile[..64] + initial[64..] == tile;
  }

  // ---------------------------------------------------------------------------
  // DXT3.

  /** Pixel i's explicit alpha: bits 4i .. 4i+3 of the alpha word, `(alpha_bits >> (i * 4)) & 0xF`. */
  function Nibble(alphaBits: nat, i: nat): (n: nat)
    ensures n < 16
  {
    Pow2Values();
    Bits(alphaBits, 4 * i, 4)
  }

  /** Two alpha values a byte, the even pixel in the low nibble. */
  lemma NibbleLayout(block: seq<byte>, i: nat)
    requires |block| == 16 && i < 16
    ensures Nibble(Le(block[..8]), i) == Bits(block[i / 2], 4 * (i % 2), 4)
  {
    var s := block[..8];
    BitsOfLe(s, 4 * i, 4);
    WindowInByte(s, 4 * i, 4);
    assert (4 * i) / 8 == i / 2 && (4 * i) % 8 == 4 * (i % 2);
  }

  /** A 4-bit alpha widened to 8 bits by repeating it, `n << 4 | n`: 0 stays 0, 15 becomes 255. */
  function ExpandNibble(n: nat): (a: byte)
    requires n < 16
    ensures a == 17 * n
  {
    Pow2Values();
    ShiftLeftByte(n);
    OrCommutes(ShiftLeft(n, 4), n);
    OrDisjoint(n, n, 4);
    BitOr(ShiftLeft(n, 4), n)
  }

  /** The 16 pixels a DXT3 block stands for: the colours of its DXT1 half, each with its own alpha. */
  function Dxt3Pixels(block: seq<byte>): (px: seq<Rgba>)
    requires |block| == 16
    ensures |px| == 16
  {
    var color := Dxt1Pixels(block[8..16]);
    var alphaBits := Le(block[..8]);
    seq(16, i requires 0 <= i < 16 => color[i].(a := ExpandNibble(Nibble(alphaBits, i))))
  }

  /** A DXT3 pixel has the colour of its DXT1 half and a multiple of 17 as alpha: nibble n becomes 17 n. */
  lemma Dxt3Pixel(block: seq<byte>, i: nat)
    requires |block| == 16 && i < 16
    ensures var p, c := Dxt3Pixels(block)[i], Dxt1Pixels(block[8..16])[i];
      p.r == c.r && p.g == c.g && p.b == c.b &&
      p.a == 17 * Bits(block[i / 2], 4 * (i % 2), 4)
  {
    var n := Nibble(Le(block[..8]), i);
    assert Dxt3Pixels(block)[i] == Dxt1Pixels(block[8..16])[i].(a := ExpandNibble(n));
    NibbleLayout(block, i);
  }

  /** Decodes one DXT3 block: the colour half as DXT1, then the 16 alphas over it. */
  method Dxt3ToRgba(block: seq<byte>, dst: array<byte>)
    requires |block| == 16 && dst.Length == 64
    modifies dst
    ensures dst[..] == TileBytes(Dxt3Pixels(block))
  {
    var alphaBits := Le(block[..8]);
    Dxt1ToRgba(block[8..16], dst);
    ghost var color := TileBytes(Dxt1Pixels(block[8..16]));
    ghost var tile := TileBytes(Dxt3Pixels(block));
    for i := 0 to 16
      invariant dst[..] == tile[..4 * i] + color[4 * i..]
    {
      var alpha := ExpandNibble(Nibble(alphaBits, i));
      assert alpha == Dxt3Pixels(block)[i].a;
      AlphaStep(Dxt3Pixels(block), Dxt1Pixels(block[8..16]), i);
      dst[4 * i + 3] := alpha;
    }
    assert tile[..64] + color[64..] == tile;
  }

  // ---------------------------------------------------------------------------
  // DXT5.

  /**
    The eight alpha levels of a DXT5 block. With alpha0 > alpha1: the endpoints and
    six levels interpolated between them; otherwise the endpoints, four levels
    between them, then 0 and 255. Each division truncates.
   */
  function AlphaTable(alpha0: byte, alpha1: byte): (t: seq<byte>)
    ensures |t| == 8 && t[0] == alpha0 && t[1] == alpha1
    ensures alpha0 > alpha1 ==>
      t[0] >= t[2] && t[2] >= t[3] && t[3] >= t[4] && t[4] >= t[5] && t[5] >= t[6] && t[6] >= t[7] && t[7] >= t[1]
    ensures alpha0 <= alpha1 ==>
      t[0] <= t[2] && t[2] <= t[3] && t[3] <= t[4] && t[4] <= t[5] && t[5] <= t[1] && t[6] == 0 && t[7] == 255
  {
    if alpha0 > alpha1 then
      [alpha0, alpha1,
       (6 * alpha0 + 1 * alpha1) / 7,
       (5 * alpha0 + 2 * alpha1) / 7,
       (4 * alpha0 + 3 * alpha1) / 7,
       (3 * alpha0 + 4 * alpha1) / 7,
       (2 * alpha0 + 5 * alpha1) / 7,
       (1 * alpha0 + 6 * alpha1) / 7]
    else
      [alpha0, alpha1,
       (4 * alpha0 + 1 * alpha1) / 5,
       (3 * alpha0 + 2 * alpha1) / 5,
       (2 * alpha0 + 3 * alpha1) / 5,
       (1 * alpha0 + 4 * alpha1) / 5,
       0, 255]
  }

  /** With alpha0 > alpha1, level k (2 <= k < 8) is the mean of the endpoints weighted 8 - k to k - 1, rounded down. */
  lemma AlphaTableSevenths(alpha0: byte, alpha1: byte, k: nat)
    requires alpha0 > alpha1 && 2 <= k < 8
    ensures AlphaTable(alpha0, alpha1)[k] == ((8 - k) * alpha0 + (k - 1) * alpha1) / 7
  {
    var w0, w1 := 8 - k, k - 1;
    if k == 2 {
      assert w0 == 6 && w1 == 1;
    } else if k == 3 {
      assert w0 == 5 && w1 == 2;
    } else if k == 4 {
      assert w0 == 4 && w1 == 3;
    } else if k == 5 {
      assert w0 == 3 && w1 == 4;
    } else if k == 6 {
      assert w0 == 2 && w1 == 5;
    } else {
      assert w0 == 1 && w1 == 6;
    }
  }

  /** With alpha0 <= alpha1, level k (2 <= k < 6) is the mean of the endpoints weighted 6 - k to k - 1, rounded down. */
  lemma AlphaTableFifths(alpha0: byte, alpha1: byte, k: nat)
    requires alpha0 <= alpha1 && 2 <= k < 6
    ensures AlphaTable(alpha0, alpha1)[k] == ((6 - k) * alpha0 + (k - 1) * alpha1) / 5
  {
    var w0, w1 := 6 - k, k - 1;
    if k == 2 {
      assert w0 == 4 && w1 == 1;
    } else if k == 3 {
      assert w0 == 3 && w1 == 2;
    } else if k == 4 {
      assert w0 == 2 && w1 == 3;
    } else {
      assert w0 == 1 && w1 == 4;
    }
  }

  /** Full opacity to full transparency in eight levels. */
  lemma AlphaTableOpaqueToClear()
    ensures AlphaTable(255, 0) == [255, 0, 218, 182, 145, 109, 72, 36]
  {
  }

  /**
    Pixel i's 3-bit alpha index: bits 3i .. 3i+2 of the 48-bit index word, which is
    bytes 2..7 of the block read as a little-endian integer.
   */
  function AlphaIndex(indexBits: nat, i: nat): (k: nat)
    ensures k < 8
  {
    Pow2Values();
    Bits(indexBits, 3 * i, 3)
  }

  /**
    The alpha index as the decoder extracts it, byte by byte from bytes 2..7: when
    the index starts in the top two bits of a byte, its low part is the rest of
    that byte and its high part the low bits of the next one, or-ed together;
    otherwise three bits of the one byte. The result is stored as a uint8_t.
   */
  function AlphaIndexAsWritten(block: seq<byte>, i: nat): (k: byte)
    requires |block| == 16 && i < 16
  {
    var bitPos := i * 3;
    var bytePos := bitPos / 8;
    var bitOffset := bitPos % 8;
    if bitOffset > 5 then
      BitOr(ShiftRight(block[2 + bytePos], bitOffset),
            ShiftLeft(BitAnd(block[2 + bytePos + 1], ShiftLeft(1, bitOffset - 5) - 1), 8 - bitOffset)) % 256
    else
      BitAnd(ShiftRight(block[2 + bytePos], bitOffset), 0x07) % 256
  }

  /** The decoder's or of the two parts is their sum: the low part has 8 - r bits and the high part sits above it. */
  lemma MaskedOr(b0: byte, b1: byte, r: nat)
    requires 5 < r < 8
    ensures BitOr(ShiftRight(b0, r), ShiftLeft(BitAnd(b1, ShiftLeft(1, r - 5) - 1), 8 - r))
      == ShiftRight(b0, r) + ShiftLeft(LowBits(b1, r - 5), 8 - r)
  {
    var n := 8 - r;
    ShiftLeftOne(r - 5);
    AndLowMask(b1, r - 5);
    Pow2Values();
    assert b0 < Pow2(r + n);
    ShiftRightBound(b0, r, n);
    OrDisjoint(ShiftRight(b0, r), LowBits(b1, r - 5), n);
  }

  /** The 3-bit window at bit r > 5 of b0 + 256 b1: the top 8 - r bits of b0, then the low r - 5 bits of b1. */
  lemma WindowAcross(b0: byte, b1: byte, r: nat)
    requires 5 < r < 8
    ensures Bits(b0 + 256 * b1, r, 3) == ShiftRight(b0, r) + ShiftLeft(LowBits(b1, r - 5), 8 - r)
  {
    var n := 8 - r;
    Pow2Values();
    ShiftLeftByte(b1);
    ShiftRightAddHigh(b0, b1, 8, r);
    assert b0 < Pow2(r + n);
    ShiftRightBound(b0, r, n);
    LowBitsSplit(ShiftRight(b0, r), b1, n, 3);
    assert 3 - n == r - 5;
  }

  /** An index that starts in the top two bits of b0 takes its high bits from b1. */
  lemma TwoByteIndex(b0: byte, b1: byte, r: nat)
    requires 5 < r < 8
    ensures BitOr(ShiftRight(b0, r), ShiftLeft(BitAnd(b1, ShiftLeft(1, r - 5) - 1), 8 - r)) == Bits(b0 + 256 * b1, r, 3)
  {
    MaskedOr(b0, b1, r);
    WindowAcross(b0, b1, r);
  }

  /** An index that starts at or below bit 5 of b0 lies in b0 alone. */
  lemma OneByteIndex(b0: byte, b1: nat, r: nat)
    requires r <= 5
    ensures BitAnd(ShiftRight(b0, r), 0x07) == Bits(b0 + 256 * b1, r, 3)
  {
    Pow2Values();
    ShiftLeftByte(b1);
    HighBitsInvisible(b0, b1, 8, r, 3);
    AndLowMask(ShiftRight(b0, r), 3);
  }

  /** An index that crosses into the next byte never starts in the last index byte. */
  lemma CrossingIndexHasNextByte(i: nat)
    requires i < 16 && (i * 3) % 8 > 5
    ensures (i * 3) / 8 + 1 < 6
  {
  }

  /** The index of pixel i is the 3-bit window at bit 3i of the bytes 2..7, read from the byte holding that bit and the next. */
  lemma AlphaIndexWindow(block: seq<byte>, i: nat)
    requires |block| == 16 && i < 16
    ensures AlphaIndex(Le(block[2..8]), i) == ByteWindow(block[2..8], 3 * i, 3)
  {
    BitsOfLe(block[2..8], 3 * i, 3);
  }

  /** For an index that crosses into the next byte, the decoder's or of two parts reads the index. */
  lemma CrossingIndexCorrect(block: seq<byte>, i: nat)
    requires |block| == 16 && i < 16 && (i * 3) % 8 > 5
    ensures AlphaIndexAsWritten(block, i) == AlphaIndex(Le(block[2..8]), i)
  {
    var p := i * 3;
    assert p == 3 * i;
    var q, r := p / 8, p % 8;
    CrossingIndexHasNextByte(i);
    var b0, b1 := block[2 + q], block[2 + q + 1];
    var raw := BitOr(ShiftRight(b0, r), ShiftLeft(BitAnd(b1, ShiftLeft(1, r - 5) - 1), 8 - r));
    assert AlphaIndexAsWritten(block, i) == raw % 256;
    assert raw == AlphaIndex(Le(block[2..8]), i) by {
      TwoByteIndex(b0, b1, r);
      AlphaIndexWindow(block, i);
      assert block[2..8][q] == b0 && block[2..8][q + 1] == b1;
    }
  }

  /** For an index inside one byte, the decoder's shift and mask read the index. */
  lemma InByteIndexCorrect(block: seq<byte>, i: nat)
    requires |block| == 16 && i < 16 && (i * 3) % 8 <= 5
    ensures AlphaIndexAsWritten(block, i) == AlphaIndex(Le(block[2..8]), i)
  {
    var p := i * 3;
    assert p == 3 * i;
    var q, r := p / 8, p % 8;
    var s := block[2..8];
    var b0 := block[2 + q];
    var next: nat := if q + 1 < |s| then s[q + 1] else 0;
    var raw := BitAnd(ShiftRight(b0, r), 0x07);
    assert AlphaIndexAsWritten(block, i) == raw % 256;
    assert raw == AlphaIndex(Le(s), i) by {
      OneByteIndex(b0, next, r);
      AlphaIndexWindow(block, i);
      assert s[q] == b0;
    }
  }

  /** The byte-by-byte extraction reads exactly the index the format defines. */
  lemma AlphaIndexAsWrittenCorrect(block: seq<byte>, i: nat)
    requires |block| == 16 && i < 16
    ensures AlphaIndexAsWritten(block, i) == AlphaIndex(Le(block[2..8]), i)
  {
    if (i * 3) % 8 > 5 {
      CrossingIndexCorrect(block, i);
    } else {
      InByteIndexCorrect(block, i);
    }
  }

  /** The decoder's extraction reads nothing of the block but its index bytes 2..7. */
  lemma AlphaIndexReadsIndexBytes(block: seq<byte>, block2: seq<byte>, i: nat)
    requires |block| == 16 && |block2| == 16 && i < 16
    requires block[2..8] == block2[2..8]
    ensures AlphaIndexAsWritten(block, i) == AlphaIndexAsWritten(block2, i)
  {
    AlphaIndexAsWrittenCorrect(block, i);
    AlphaIndexAsWrittenCorrect(block2, i);
  }

  /** The 16 pixels a DXT5 block stands for: the colours of its DXT1 half, each with the alpha level its index picks. */
  function Dxt5Pixels(block: seq<byte>): (px: seq<Rgba>)
    requires |block| == 16
    ensures |px| == 16
  {
    var color := Dxt1Pixels(block[8..16]);
    var table := AlphaTable(block[0], block[1]);
    var indexBits := Le(block[2..8]);
    seq(16, i requires 0 <= i < 16 => color[i].(a := table[AlphaIndex(indexBits, i)]))
  }

  /** Decodes one DXT5 block: the alpha table, the colour half as DXT1, then the 16 alphas over it. */
  method Dxt5ToRgba(block: seq<byte>, dst: array<byte>)
    requires |block| == 16 && dst.Length == 64
    modifies dst
    ensures dst[..] == TileBytes(Dxt5Pixels(block))
  {
    var alphaTable := AlphaTable(block[0], block[1]);
    Dxt1ToRgba(block[8..16], dst);
    ghost var color := TileBytes(Dxt1Pixels(block[8..16]));
    ghost var tile := TileBytes(Dxt5Pixels(block));
    for i := 0 to 16
      invariant dst[..] == tile[..4 * i] + color[4 * i..]
    {
      var alphaIndex := AlphaIndexAsWritten(block, i);
      AlphaIndexAsWrittenCorrect(block, i);
      assert alphaTable[alphaIndex] == Dxt5Pixels(block)[i].a;
      AlphaStep(Dxt5Pixels(block), Dxt1Pixels(block[8..16]), i);
      dst[4 * i + 3] := alphaTable[alphaIndex];
    }
    assert tile[..64] + color[64..] == tile;
  }
}
