/**
 * The encoded image of the png2dds generation: the encoded 4x4 blocks of one picture, one
 * or two 64-bit words per block, and the header of its DDS file, a DDSURFACEDESC2 of the
 * DirectDraw Surface format followed by room for a DDS_HEADER_DXT10 extension.
 */
module DdsImage {
  import opened Util
  import opened ByteOrder
  import opened Png2ddsFormat
  import PixelBlocks

  /** Flags of the surface description (the dwFlags member). */
  const DDSD_CAPS: bv32 := 0x1
  const DDSD_HEIGHT: bv32 := 0x2
  const DDSD_WIDTH: bv32 := 0x4
  const DDSD_PIXELFORMAT: bv32 := 0x1000
  const DDSD_LINEARSIZE: bv32 := 0x8_0000
  /** The surface is a texture (ddsCaps.dwCaps). */
  const DDSCAPS_TEXTURE: bv32 := 0x1000
  /** The pixel format is given by a four-character code (ddpfPixelFormat.dwFlags). */
  const DDPF_FOURCC: bv32 := 0x4

  /** sizeof(DDSURFACEDESC2), sizeof(DDPIXELFORMAT) and sizeof(DDS_HEADER_DXT10). */
  const SurfaceDescriptionSize: nat := 124
  const PixelFormatSize: nat := 32
  const ExtensionSize: nat := 20
  /** header_type holds a surface description and an extension. */
  const HeaderSize: nat := SurfaceDescriptionSize + ExtensionSize

  /** Byte offsets of the members the encoder fills in. */
  const SizeAt: nat := 0
  const FlagsAt: nat := 4
  const HeightAt: nat := 8
  const WidthAt: nat := 12
  const LinearSizeAt: nat := 16
  const PixelFormatSizeAt: nat := 72
  const PixelFormatFlagsAt: nat := 76
  const FourCCAt: nat := 80
  const RgbBitCountAt: nat := 84
  const CapsAt: nat := 104

  /** format_block_size: 64-bit words per encoded block; bc1_alpha_bc7 is not a format of
    * an encoded image, and the source asserts against it. */
  function FormatBlockSize(fmt: Type): (r: nat)
    requires fmt != Bc1AlphaBc7
    ensures 8 * r == (if fmt == Bc1 then 8 else 16)
  {
    match fmt
    case Bc1 => 1
    case Bc7 => 2
  }

  /** PIXEL_FMT_FOURCC: four characters packed lowest first. */
  function FourCC(a: char, b: char, c: char, d: char): (r: U32)
    requires a < 128 as char && b < 128 as char && c < 128 as char && d < 128 as char
  {
    a as int + 0x100 * b as int + 0x1_0000 * c as int + 0x100_0000 * d as int
  }

  /** format_fourcc: DXT1 for bc1; DX10 for bc7, whose format is in the extension. */
  function FormatFourCC(fmt: Type): (r: U32)
    requires fmt != Bc1AlphaBc7
  {
    match fmt
    case Bc1 => FourCC('D', 'X', 'T', '1')
    case Bc7 => FourCC('D', 'X', '1', '0')
  }

  /** The bytes of an ASCII string. */
  function Ascii(s: string): (r: seq<Byte>)
    requires forall i :: 0 <= i < |s| ==> s[i] < 128 as char
    ensures |r| == |s| && forall i :: 0 <= i < |s| ==> r[i] == s[i] as int
  {
    if s == [] then [] else [s[0] as int] + Ascii(s[1..])
  }

  /** In the file the code reads as its four characters. */
  lemma FourCCInFile(fmt: Type)
    requires fmt != Bc1AlphaBc7
    ensures U32Bytes(FormatFourCC(fmt)) == Ascii(if fmt == Bc1 then "DXT1" else "DX10")
  {
    var v := FormatFourCC(fmt);
    var s := if fmt == Bc1 then "DXT1" else "DX10";
    assert LittleEndian(v / 0x100_0000, 1) == [s[3] as int];
    assert LittleEndian(v / 0x1_0000, 2) == [s[2] as int] + LittleEndian(v / 0x100_0000, 1);
    assert LittleEndian(v / 0x100, 3) == [s[1] as int] + LittleEndian(v / 0x1_0000, 2);
    assert LittleEndian(v, 4) == [s[0] as int] + LittleEndian(v / 0x100, 3);
  }

  /** The members of DDPIXELFORMAT the encoder sets; the bit masks stay zero. */
  datatype PixelFormat = PixelFormat(size: U32, flags: U32, fourCC: U32, rgbBitCount: U32)

  /** The members of DDSURFACEDESC2 the encoder sets; every other member stays zero. */
  datatype SurfaceDescription = SurfaceDescription(
    size: U32, flags: U32, height: U32, width: U32, linearSize: U32,
    pixelFormat: PixelFormat, caps: U32)

  /** get_surface_description: a texture whose size, pixel format and linear size are
    * given; width, height, linear size and code are left for the caller. */
  function BaseSurfaceDescription(): (r: SurfaceDescription)
  {
    SurfaceDescription(
      SurfaceDescriptionSize,
      (DDSD_WIDTH | DDSD_HEIGHT | DDSD_PIXELFORMAT | DDSD_CAPS | DDSD_LINEARSIZE) as int,
      0, 0, 0,
      PixelFormat(PixelFormatSize, DDPF_FOURCC as int, 0, 0),
      DDSCAPS_TEXTURE as int)
  }

  /** Member k (counting uint32 members) of DDSURFACEDESC2 in memory order. */
  function DescriptionWord(d: SurfaceDescription, k: nat): (r: U32)
  {
    if k == SizeAt / 4 then d.size
    else if k == FlagsAt / 4 then d.flags
    else if k == HeightAt / 4 then d.height
    else if k == WidthAt / 4 then d.width
    else if k == LinearSizeAt / 4 then d.linearSize
    else if k == PixelFormatSizeAt / 4 then d.pixelFormat.size
    else if k == PixelFormatFlagsAt / 4 then d.pixelFormat.flags
    else if k == FourCCAt / 4 then d.pixelFormat.fourCC
    else if k == RgbBitCountAt / 4 then d.pixelFormat.rgbBitCount
    else if k == CapsAt / 4 then d.caps
    else 0
  }

  /** The 31 uint32 members of DDSURFACEDESC2 in memory order. */
  function DescriptionWords(d: SurfaceDescription): (r: seq<U32>)
    ensures |r| == SurfaceDescriptionSize / 4
    ensures forall k :: 0 <= k < |r| ==> r[k] == DescriptionWord(d, k)
  {
    seq(SurfaceDescriptionSize / 4, k requires 0 <= k => DescriptionWord(d, k))
  }

  /** static_cast<std::uint32_t>: the low 32 bits. */
  function Narrow(x: nat): (r: U32)
  {
    x % UINT32_MODULUS
  }

  /** The surface description get_header fills in. */
  function HeaderDescription(fmt: Type, width: SizeT, height: SizeT, blockSizeBytes: nat): (r: SurfaceDescription)
    requires fmt != Bc1AlphaBc7
  {
    var base := BaseSurfaceDescription();
    base.(width := Narrow(width), height := Narrow(height), linearSize := Narrow(blockSizeBytes),
      pixelFormat := base.pixelFormat.(fourCC := FormatFourCC(fmt)))
  }

  /** get_header: the surface description in the first bytes of the header array, whose
    * remaining bytes are never written; `rest` stands for what they hold. */
  function GetHeader(fmt: Type, width: SizeT, height: SizeT, blockSizeBytes: nat, rest: seq<Byte>): (r: seq<Byte>)
    requires fmt != Bc1AlphaBc7 && |rest| == ExtensionSize
    ensures |r| == HeaderSize && r[SurfaceDescriptionSize..] == rest
  {
    DwordBytes(DescriptionWords(HeaderDescription(fmt, width, height, blockSizeBytes))) + rest
  }

  /** The uint32 member at byte offset `at` of a header. */
  function Field(header: seq<Byte>, at: nat): (r: nat)
    requires at + 4 <= |header|
  {
    ValueOf(header[at..at + 4])
  }

  /** Member k of the description is read back from its four bytes of the header. */
  lemma FieldOfHeader(fmt: Type, width: SizeT, height: SizeT, blockSizeBytes: nat, rest: seq<Byte>, k: nat)
    requires fmt != Bc1AlphaBc7 && |rest| == ExtensionSize && k < SurfaceDescriptionSize / 4
    ensures Field(GetHeader(fmt, width, height, blockSizeBytes, rest), 4 * k)
      == DescriptionWords(HeaderDescription(fmt, width, height, blockSizeBytes))[k]
  {
    var words := DescriptionWords(HeaderDescription(fmt, width, height, blockSizeBytes));
    var h := GetHeader(fmt, width, height, blockSizeBytes, rest);
    DwordAt(words, k);
    assert h[4 * k..4 * k + 4] == DwordBytes(words)[4 * k..4 * k + 4];
  }

  /** What a reader of the header finds in each member the encoder fills in. */
  lemma HeaderFields(fmt: Type, width: SizeT, height: SizeT, blockSizeBytes: nat, rest: seq<Byte>)
    requires fmt != Bc1AlphaBc7 && |rest| == ExtensionSize
    ensures var h := GetHeader(fmt, width, height, blockSizeBytes, rest);
      && Field(h, SizeAt) == SurfaceDescriptionSize
      && Field(h, FlagsAt) == 0x8_1007
      && Field(h, HeightAt) == height % UINT32_MODULUS
      && Field(h, WidthAt) == width % UINT32_MODULUS
      && Field(h, LinearSizeAt) == blockSizeBytes % UINT32_MODULUS
      && Field(h, PixelFormatSizeAt) == PixelFormatSize
      && Field(h, PixelFormatFlagsAt) == 0x4
      && Field(h, FourCCAt) == FormatFourCC(fmt)
      && Field(h, RgbBitCountAt) == 0
      && Field(h, CapsAt) == 0x1000
  {
    assert (DDSD_WIDTH | DDSD_HEIGHT | DDSD_PIXELFORMAT | DDSD_CAPS | DDSD_LINEARSIZE) == 0x8_1007;
    FieldOfHeader(fmt, width, height, blockSizeBytes, rest, 0);
    FieldOfHeader(fmt, width, height, blockSizeBytes, rest, 1);
    FieldOfHeader(fmt, width, height, blockSizeBytes, rest, 2);
    FieldOfHeader(fmt, width, height, blockSizeBytes, rest, 3);
    FieldOfHeader(fmt, width, height, blockSizeBytes, rest, 4);
    FieldOfHeader(fmt, width, height, blockSizeBytes, rest, 18);
    FieldOfHeader(fmt, width, height, blockSizeBytes, rest, 19);
    FieldOfHeader(fmt, width, height, blockSizeBytes, rest, 20);
    FieldOfHeader(fmt, width, height, blockSizeBytes, rest, 21);
    FieldOfHeader(fmt, width, height, blockSizeBytes, rest, 26);
  }

  /** The number of 64-bit words of an image of width x height blocks. */
  function BlockWords(width: nat, height: nat, blockOffset: nat): (r: nat)
  {
    width * height * blockOffset
  }

  /** An encoded image: width x height blocks (the pixel-block image's block counts), each of
    * blockOffset words, stored row by row, and the header of its file. */
  class DdsImage {
    const blockOffset: nat
    const width: SizeT
    const height: SizeT
    const blocks: array<U64>
    const header: seq<Byte>
    const fileIndex: SizeT
    const format: Type

    /** The blocks fill the word array exactly and the header has its fixed size. */
    ghost predicate Valid()
      reads this
    {
      blocks.Length == BlockWords(width, height, blockOffset) && |header| == HeaderSize
    }

    /** dds_image(): no blocks, a zeroed header and the error file index. */
    constructor Empty()
      ensures Valid() && fresh(blocks)
      ensures blockOffset == 1 && width == 0 && height == 0 && blocks.Length == 0
      ensures header == LittleEndian(0, HeaderSize)
      ensures fileIndex == SIZE_MAX && format == Bc1
    {
      blockOffset := 1;
      width := 0;
      height := 0;
      blocks := new U64[0];
      header := LittleEndian(0, HeaderSize);
      fileIndex := SIZE_MAX;
      format := Bc1;
    }

    /** dds_image(image, format): zeroed blocks for every block of the pixel-block image and
      * the header of the original picture; `rest` stands for the header bytes it never
      * writes. The block count is not reduced modulo 2^64. */
    constructor(image: PixelBlocks.PixelBlockImage, fmt: Type, rest: seq<Byte>)
      requires fmt != Bc1AlphaBc7 && |rest| == ExtensionSize
      ensures Valid() && fresh(blocks)
      ensures blockOffset == FormatBlockSize(fmt) && width == image.width && height == image.height
      ensures forall i :: 0 <= i < blocks.Length ==> blocks[i] == 0
      ensures header == GetHeader(fmt, image.imageWidth, image.imageHeight, 8 * blocks.Length, rest)
      ensures fileIndex == image.fileIndex && format == fmt
    {
      blockOffset := FormatBlockSize(fmt);
      width := image.width;
      height := image.height;
      var words := new U64[BlockWords(image.width, image.height, FormatBlockSize(fmt))](_ => 0);
      blocks := words;
      header := GetHeader(fmt, image.imageWidth, image.imageHeight, 8 * words.Length, rest);
      fileIndex := image.fileIndex;
      format := fmt;
    }

    /** block(x, y): the index of the first word of block (x, y). */
    function Block(x: nat, y: nat): (r: nat)
      reads this
      ensures x < width && y < height && blocks.Length == BlockWords(width, height, blockOffset)
        ==> r + blockOffset <= blocks.Length
    {
      BlockInside(x, y);
      (x + y * width) * blockOffset
    }

    lemma BlockInside(x: nat, y: nat)
      ensures x < width && y < height ==> (x + y * width) * blockOffset + blockOffset <= BlockWords(width, height, blockOffset)
    {
      if x < width && y < height {
        Arithmetic.RowMajorBounded(x, y, width, height);
        Arithmetic.MulMonotone(x + y * width + 1, width * height, blockOffset);
      }
    }

    /** Two different blocks of the image share no word. */
    lemma BlocksDisjoint(x1: nat, y1: nat, x2: nat, y2: nat)
      requires x1 < width && x2 < width && (x1, y1) != (x2, y2)
      ensures Block(x1, y1) + blockOffset <= Block(x2, y2) || Block(x2, y2) + blockOffset <= Block(x1, y1)
    {
      var i, j := x1 + y1 * width, x2 + y2 * width;
      if i == j {
        Arithmetic.DivModUnique(i, width, y1, x1);
        Arithmetic.DivModUnique(j, width, y2, x2);
      } else if i < j {
        Arithmetic.MulMonotone(i + 1, j, blockOffset);
      } else {
        Arithmetic.MulMonotone(j + 1, i, blockOffset);
      }
    }
  }
}
