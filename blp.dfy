/**
  BLP2 files: the 1172-byte header, read as a packed little-endian structure, and
  the checks that decide whether the first mipmap is decoded and with which block
  format.
 */
module Blp {
  import opened Wrappers
  import opened Bytes
  import opened Grid

  // ---------------------------------------------------------------------------
  // The header.

  /** The packed header: 4 + 4 + 4 * 1 + 4 + 4 + 16 * 4 + 16 * 4 + 256 * 4 bytes. */
  const HeaderSize: nat := 1172

  /** The magic number "BLP2". */
  const Magic: seq<byte> := [66, 76, 80, 50]

  /** The fields of the header, in file order. */
  datatype Header = Header(
    ident: seq<byte>,
    textureType: nat,
    compression: byte,
    alphaDepth: byte,
    alphaType: byte,
    hasMips: byte,
    width: nat,
    height: nat,
    mipOffsets: seq<nat>,
    mipLengths: seq<nat>,
    palette: seq<nat>)

  /** A 32-bit field. */
  predicate IsWord(w: nat)
  {
    w < 0x1_0000_0000
  }

  /** Every field has the width it has in the file. */
  predicate ValidHeader(h: Header)
  {
    |h.ident| == 4 && IsWord(h.textureType) && IsWord(h.width) && IsWord(h.height) &&
    |h.mipOffsets| == 16 && |h.mipLengths| == 16 && |h.palette| == 256 &&
    (forall i :: 0 <= i < 16 ==> IsWord(h.mipOffsets[i])) &&
    (forall i :: 0 <= i < 16 ==> IsWord(h.mipLengths[i])) &&
    (forall i :: 0 <= i < 256 ==> IsWord(h.palette[i]))
  }

  /** A little-endian uint32_t. */
  function WordOf(s: seq<byte>): (w: nat)
    requires |s| == 4
    ensures IsWord(w)
  {
    LeBound(s);
    Le(s)
  }

  /** n consecutive little-endian uint32_t values. */
  function Words(s: seq<byte>, n: nat): (ws: seq<nat>)
    requires |s| == 4 * n
    ensures |ws| == n && forall i :: 0 <= i < n ==> IsWord(ws[i])
  {
    if n == 0 then [] else [WordOf(s[..4])] + Words(s[4..], n - 1)
  }

  /** The four little-endian bytes of a uint32_t. */
  function WordBytes(w: nat): (s: seq<byte>)
    ensures |s| == 4
  {
    LeBytes(w, 4)
  }

  /** A sequence of uint32_t values laid out one after the other. */
  function WordsBytes(ws: seq<nat>): (s: seq<byte>)
    ensures |s| == 4 * |ws|
  {
    if |ws| == 0 then [] else WordBytes(ws[0]) + WordsBytes(ws[1..])
  }

  /** Reading the header from its 1172 bytes, at the packed offsets. */
  function ParseHeader(s: seq<byte>): (h: Header)
    requires |s| == HeaderSize
    ensures ValidHeader(h)
  {
    Header(s[0..4], WordOf(s[4..8]), s[8], s[9], s[10], s[11], WordOf(s[12..16]), WordOf(s[16..20]),
           Words(s[20..84], 16), Words(s[84..148], 16), Words(s[148..1172], 256))
  }

  /** Writing the header back as the 1172 bytes it is read from. */
  function EncodeHeader(h: Header): (s: seq<byte>)
    requires ValidHeader(h)
    ensures |s| == HeaderSize
  {
    h.ident + WordBytes(h.textureType) + [h.compression, h.alphaDepth, h.alphaType, h.hasMips] +
    WordBytes(h.width) + WordBytes(h.height) +
    WordsBytes(h.mipOffsets) + WordsBytes(h.mipLengths) + WordsBytes(h.palette)
  }

  lemma WordRoundTrip(w: nat)
    requires IsWord(w)
    ensures WordOf(WordBytes(w)) == w
  {
    assert Pow256(4) == 0x1_0000_0000;
    LeOfLeBytes(w, 4);
  }

  lemma BytesRoundTrip(s: seq<byte>)
    requires |s| == 4
    ensures WordBytes(WordOf(s)) == s
  {
    LeBytesOfLe(s);
  }

  lemma {:induction false} WordsRoundTrip(ws: seq<nat>)
    requires forall i :: 0 <= i < |ws| ==> IsWord(ws[i])
    ensures Words(WordsBytes(ws), |ws|) == ws
  {
    if |ws| > 0 {
      var s := WordsBytes(ws);
      assert s[..4] == WordBytes(ws[0]);
      assert s[4..] == WordsBytes(ws[1..]);
      WordRoundTrip(ws[0]);
      WordsRoundTrip(ws[1..]);
    }
  }

  lemma {:induction false} WordsBytesRoundTrip(s: seq<byte>, n: nat)
    requires |s| == 4 * n
    ensures WordsBytes(Words(s, n)) == s
  {
    if n > 0 {
      var ws := Words(s, n);
      assert ws[1..] == Words(s[4..], n - 1);
      BytesRoundTrip(s[..4]);
      WordsBytesRoundTrip(s[4..], n - 1);
      assert s == s[..4] + s[4..];
    }
  }

  /** Every header is read back from the bytes it is written as. */
  lemma ParseEncode(h: Header)
    requires ValidHeader(h)
    ensures ParseHeader(EncodeHeader(h)) == h
  {
    var s := EncodeHeader(h);
    var p12 := h.ident + WordBytes(h.textureType) + [h.compression, h.alphaDepth, h.alphaType, h.hasMips];
    var p20 := p12 + WordBytes(h.width) + WordBytes(h.height);
    var p84 := p20 + WordsBytes(h.mipOffsets);
    var p148 := p84 + WordsBytes(h.mipLengths);
    assert |p12| == 12 && |p20| == 20 && |p84| == 84 && |p148| == 148;
    assert s == p148 + WordsBytes(h.palette);
    assert s[148..1172] == WordsBytes(h.palette);
    assert s[..148] == p148;
    assert s[84..148] == WordsBytes(h.mipLengths) by {
      assert s[84..148] == p148[84..148];
    }
    assert s[20..84] == WordsBytes(h.mipOffsets) by {
      assert s[20..84] == p148[..84][20..84] && p148[..84] == p84;
    }
    assert s[..20] == p20 by {
      assert s[..20] == p148[..84][..20] && p148[..84] == p84;
    }
    assert s[0..4] == h.ident && s[4..8] == WordBytes(h.textureType) by {
      assert s[..12] == p20[..12] == p12;
    }
    assert s[8] == h.compression && s[9] == h.alphaDepth && s[10] == h.alphaType && s[11] == h.hasMips by {
      assert s[..12] == p20[..12] == p12;
    }
    assert s[12..16] == WordBytes(h.width) && s[16..20] == WordBytes(h.height) by {
      assert s[12..20] == p20[12..20];
    }
    WordRoundTrip(h.textureType);
    WordRoundTrip(h.width);
    WordRoundTrip(h.height);
    WordsRoundTrip(h.mipOffsets);
    WordsRoundTrip(h.mipLengths);
    WordsRoundTrip(h.palette);
  }

  /** Every 1172-byte string is written back exactly from the header read out of it. */
  lemma EncodeParse(s: seq<byte>)
    requires |s| == HeaderSize
    ensures EncodeHeader(ParseHeader(s)) == s
  {
    var h := ParseHeader(s);
    var q12 := h.ident + WordBytes(h.textureType) + [h.compression, h.alphaDepth, h.alphaType, h.hasMips];
    assert q12 == s[..12] by {
      BytesRoundTrip(s[4..8]);
      assert s[..12] == s[0..4] + s[4..8] + s[8..12];
    }
    var q20 := q12 + WordBytes(h.width) + WordBytes(h.height);
    assert q20 == s[..20] by {
      BytesRoundTrip(s[12..16]);
      BytesRoundTrip(s[16..20]);
      assert s[..20] == s[..12] + s[12..16] + s[16..20];
    }
    var q84 := q20 + WordsBytes(h.mipOffsets);
    assert q84 == s[..84] by {
      WordsBytesRoundTrip(s[20..84], 16);
      assert s[..84] == s[..20] + s[20..84];
    }
    var q148 := q84 + WordsBytes(h.mipLengths);
    assert q148 == s[..148] by {
      WordsBytesRoundTrip(s[84..148], 16);
      assert s[..148] == s[..84] + s[84..148];
    }
    WordsBytesRoundTrip(s[148..1172], 256);
    assert s == s[..148] + s[148..1172];
  }

  // ---------------------------------------------------------------------------
  // Classification and dispatch.

  /** Why a file is not decoded. */
  datatype BlpError =
    | HeaderReadFailed
    | InvalidMagic
    | NoImageData
    | ImageReadFailed
    | UnsupportedAlphaType(alphaType: byte)
    | TruncatedImage
    | ImageTooLarge

  /** What is done with a file whose first mipmap was read. */
  datatype Plan =
    | NotDxt
    | Decode(kind: DxtKind, width: nat, height: nat, data: seq<byte>)

  /** The block format an alpha type selects: 0 is DXT1, 1 is DXT3 and 7 is DXT5. */
  function KindOfAlphaType(alphaType: byte): (r: Option<DxtKind>)
    ensures r == Some(Dxt1) <==> alphaType == 0
    ensures r == Some(Dxt3) <==> alphaType == 1
    ensures r == Some(Dxt5) <==> alphaType == 7
    ensures r.Some? ==> BlockSize(r.value) == if alphaType == 0 then 8 else 16
  {
    if alphaType == 0 then Some(Dxt1)
    else if alphaType == 1 then Some(Dxt3)
    else if alphaType == 7 then Some(Dxt5)
    else None
  }

  /** The first mipmap's place in the file is readable: inside it, and neither offset nor length is zero. */
  predicate MipReadable(h: Header, file: seq<byte>)
    requires ValidHeader(h)
  {
    h.mipOffsets[0] != 0 && h.mipLengths[0] != 0 && h.mipOffsets[0] + h.mipLengths[0] <= |file|
  }

  /** The first mipmap's bytes. */
  function MipData(h: Header, file: seq<byte>): (data: seq<byte>)
    requires ValidHeader(h) && MipReadable(h, file)
    ensures |data| == h.mipLengths[0]
  {
    file[h.mipOffsets[0]..h.mipOffsets[0] + h.mipLengths[0]]
  }

  /**
    The checks made after the header is read, in the order the converter makes
    them: the magic, a zero offset or length, a short read of the first mipmap,
    then the compression and the alpha type. The mipmap's length is not compared
    with what the image needs, nor is the image's size bounded.
   */
  function Dispatch(h: Header, file: seq<byte>): (r: Result<Plan, BlpError>)
    requires ValidHeader(h)
    ensures h.ident != Magic ==> r == Failure(InvalidMagic)
    ensures h.ident == Magic && (h.mipOffsets[0] == 0 || h.mipLengths[0] == 0) ==> r == Failure(NoImageData)
    ensures h.ident == Magic && h.mipOffsets[0] != 0 && h.mipLengths[0] != 0 && h.mipOffsets[0] + h.mipLengths[0] > |file| ==>
      r == Failure(ImageReadFailed)
    ensures h.ident == Magic && MipReadable(h, file) && h.compression == 2 && h.alphaType !in {0, 1, 7} ==>
      r == Failure(UnsupportedAlphaType(h.alphaType))
    ensures r.Success? ==> h.ident == Magic && MipReadable(h, file)
    ensures r == Success(NotDxt) <==> h.ident == Magic && MipReadable(h, file) && h.compression != 2
    ensures r.Success? && r.value.Decode? <==>
      h.ident == Magic && MipReadable(h, file) && h.compression == 2 && h.alphaType in {0, 1, 7}
    ensures r.Success? && r.value.Decode? ==>
      Some(r.value.kind) == KindOfAlphaType(h.alphaType) && r.value.width == h.width && r.value.height == h.height &&
      r.value.data == MipData(h, file)
  {
    if h.ident != Magic then Failure(InvalidMagic)
    else if h.mipOffsets[0] == 0 || h.mipLengths[0] == 0 then Failure(NoImageData)
    else if h.mipOffsets[0] + h.mipLengths[0] > |file| then Failure(ImageReadFailed)
    else if h.compression != 2 then Success(NotDxt)
    else match KindOfAlphaType(h.alphaType)
      case None => Failure(UnsupportedAlphaType(h.alphaType))
      case Some(kind) => Success(Decode(kind, h.width, h.height, MipData(h, file)))
  }

  /** A plan the block decoder can execute: its data holds every block, and the output fits the decoder's int indices. */
  predicate Decodable(p: Plan)
  {
    p.Decode? ==> FitsIndices(p.width, p.height) && |p.data| >= RequiredBytes(p.width, p.height, p.kind)
  }

  /**
    Dispatch with the two checks the decoder needs: an image whose output would
    not fit is rejected, and so is a mipmap shorter than its blocks. Otherwise
    it decides what Dispatch decides.
   */
  function DispatchChecked(h: Header, file: seq<byte>): (r: Result<Plan, BlpError>)
    requires ValidHeader(h)
    ensures r.Success? ==> Decodable(r.value)
    ensures if Dispatch(h, file).Success? && !Decodable(Dispatch(h, file).value)
      then r == Failure(ImageTooLarge) || r == Failure(TruncatedImage)
      else r == Dispatch(h, file)
  {
    var r := Dispatch(h, file);
    if r.Success? && r.value.Decode? then
      if 4 * h.width * h.height > 0x8000_0000 then Failure(ImageTooLarge)
      else if |r.value.data| < RequiredBytes(h.width, h.height, r.value.kind) then Failure(TruncatedImage)
      else r
    else r
  }

  /** Two headers that agree in the fields the checks read are dispatched alike: the type, alpha depth, mipmap flag, later mipmaps and palette are never consulted. */
  lemma DispatchReadsCheckedFields(h: Header, h2: Header, file: seq<byte>)
    requires ValidHeader(h) && ValidHeader(h2)
    requires h.ident == h2.ident && h.compression == h2.compression && h.alphaType == h2.alphaType
    requires h.width == h2.width && h.height == h2.height
    requires h.mipOffsets[0] == h2.mipOffsets[0] && h.mipLengths[0] == h2.mipLengths[0]
    ensures Dispatch(h, file) == Dispatch(h2, file)
    ensures DispatchChecked(h, file) == DispatchChecked(h2, file)
  {
    if h.ident == Magic && MipReadable(h, file) {
      assert MipData(h, file) == MipData(h2, file);
    }
  }

  /** Reading a file as the converter does: the header is its first 1172 bytes (a shorter file fails), and Dispatch decides. */
  function Classify(file: seq<byte>): (r: Result<Plan, BlpError>)
    ensures |file| < HeaderSize <==> r == Failure(HeaderReadFailed)
    ensures r.Success? ==> file[..4] == Magic
    ensures r.Success? && r.value.Decode? ==>
      file[8] == 2 && KindOfAlphaType(file[10]).Some? && |r.value.data| == Le(file[84..88]) &&
      r.value.width == Le(file[12..16]) && r.value.height == Le(file[16..20])
  {
    if |file| < HeaderSize then Failure(HeaderReadFailed)
    else
      var h := ParseHeader(file[..HeaderSize]);
      assert h.mipLengths[0] == Le(file[84..88]) by {
        assert file[..HeaderSize][84..148][..4] == file[84..88];
      }
      assert file[..HeaderSize][12..16] == file[12..16] && file[..HeaderSize][16..20] == file[16..20];
      Dispatch(h, file)
  }

  /**
    The files the decoder can convert within bounds: when Classify decodes, the
    mipmap holds every block and the output fits the decoder's indices. The
    converter does not check this; its callers must supply such files.
   */
  predicate Convertible(file: seq<byte>)
  {
    Classify(file).Success? ==> Decodable(Classify(file).value)
  }

  /**
    Converting one file: classify it and, when it is DXT-compressed, decode its
    first mipmap. `image` is the RGBA output, empty when nothing was decoded.
   */
  method ConvertBlp(file: seq<byte>) returns (r: Result<Plan, BlpError>, image: seq<byte>)
    requires Convertible(file)
    ensures r == Classify(file)
    ensures r.Success? && r.value.Decode? ==>
      image == DecodedImage(r.value.data, r.value.width, r.value.height, r.value.kind)
    ensures !(r.Success? && r.value.Decode?) ==> image == []
  {
    r := Classify(file);
    if r.Success? && r.value.Decode? {
      var out := DecodeDxtImage(r.value.data, r.value.width, r.value.height, r.value.kind);
      image := out[..];
    } else {
      image := [];
    }
  }

  /** Reading a file with the checked dispatch: it agrees with Classify on every convertible file and rejects the rest. */
  function ClassifyChecked(file: seq<byte>): (r: Result<Plan, BlpError>)
    ensures |file| < HeaderSize <==> r == Failure(HeaderReadFailed)
    ensures r.Success? ==> Decodable(r.value)
    ensures Convertible(file) <==> r == Classify(file)
    ensures !Convertible(file) ==> r == Failure(ImageTooLarge) || r == Failure(TruncatedImage)
  {
    if |file| < HeaderSize then Failure(HeaderReadFailed)
    else DispatchChecked(ParseHeader(file[..HeaderSize]), file)
  }

  /** Converting any file: a convertible one exactly as ConvertBlp does; any other is rejected before decoding. */
  method ConvertBlpChecked(file: seq<byte>) returns (r: Result<Plan, BlpError>, image: seq<byte>)
    ensures r == ClassifyChecked(file)
    ensures r.Success? && r.value.Decode? ==>
      image == DecodedImage(r.value.data, r.value.width, r.value.height, r.value.kind)
    ensures !(r.Success? && r.value.Decode?) ==> image == []
  {
    if Convertible(file) {
      r, image := ConvertBlp(file);
    } else {
      r, image := ClassifyChecked(file), [];
    }
  }

  // ---------------------------------------------------------------------------
  // What the unchecked dispatch lets through.

  /** A header for a w x h DXT1 image whose first mipmap is `length` bytes right after the header. */
  function Dxt1Header(width: nat, height: nat, length: nat): (h: Header)
    requires IsWord(width) && IsWord(height) && IsWord(length)
    ensures ValidHeader(h)
  {
    Header(Magic, 1, 2, 0, 0, 0, width, height,
           [HeaderSize] + seq(15, i => 0), [length] + seq(15, i => 0), seq(256, i => 0))
  }

  /** A whole file: the header of an 8 x 8 DXT1 image, whose blocks need 32 bytes, and an 8-byte mipmap right after it. Classify hands those 8 bytes to the decoder; the checked path rejects the file. */
  lemma DispatchAcceptsTruncatedMip()
    ensures var file := EncodeHeader(Dxt1Header(8, 8, 8)) + seq(8, i => 0);
      Classify(file).Success? && Classify(file).value.Decode? &&
      |Classify(file).value.data| == 8 < RequiredBytes(8, 8, Dxt1) == 32 &&
      !Convertible(file) && ClassifyChecked(file) == Failure(TruncatedImage)
  {
    var h := Dxt1Header(8, 8, 8);
    var file := EncodeHeader(h) + seq(8, i => 0);
    ParseEncode(h);
    assert file[..HeaderSize] == EncodeHeader(h);
    assert h.mipOffsets[0] == HeaderSize && h.mipLengths[0] == 8;
    assert BlocksAcross(8) == 2;
  }

  /** The size of the output buffer as the converter computes it: `width * height` and then `* 4`, each in 32-bit unsigned arithmetic. */
  function OutputBytesAsWritten(width: nat, height: nat): (n: nat)
    ensures IsWord(n)
  {
    ((width * height) % 0x1_0000_0000 * 4) % 0x1_0000_0000
  }

  /** A 32768 x 32768 image needs 2^32 output bytes, and the computed buffer size wraps to 0. */
  lemma OutputBytesWrap()
    ensures 4 * 32768 * 32768 == 0x1_0000_0000
    ensures OutputBytesAsWritten(32768, 32768) == 0
  {
  }

  /** For every plan the checked dispatch accepts, the computed buffer size is the true one. */
  lemma CheckedPlanFitsBuffer(h: Header, file: seq<byte>)
    requires ValidHeader(h)
    requires DispatchChecked(h, file).Success? && DispatchChecked(h, file).value.Decode?
    ensures var p := DispatchChecked(h, file).value;
      OutputBytesAsWritten(p.width, p.height) == 4 * p.width * p.height
  {
    var p := DispatchChecked(h, file).value;
    assert Decodable(p);
    OutputBytesExact(p.width, p.height);
  }

  /** For the sizes the decoder handles, neither 32-bit product wraps. */
  lemma OutputBytesExact(width: nat, height: nat)
    requires FitsIndices(width, height)
    ensures OutputBytesAsWritten(width, height) == 4 * width * height
  {
    var n := width * height;
    assert 4 * width * height == 4 * n;
    assert n % 0x1_0000_0000 == n;
    assert (4 * n) % 0x1_0000_0000 == 4 * n;
  }
}
