/**
 * The encoding stage of the png2dds pipeline: each pixel-block image is encoded as bc1 or
 * bc7, the format used is recorded in the file's entry, and bc1_alpha_bc7 picks bc7 exactly
 * for images with a partly transparent pixel.
 */
module EncodeDdsFilter {
  import opened Util
  import opened Png2ddsFormat
  import opened FilterCommon
  import opened PixelBlocks
  import opened BlockLayout
  import opened DdsImage
  import opened Dds
  import opened Image

  /** A pixel-block image travelling through the pipeline with its file index. */
  datatype PixelBlockData = PixelBlockData(image: PixelBlockImage, fileIndex: SizeT)

  /** An encoded image travelling through the pipeline with its file index. */
  datatype DdsData = DdsData(image: DdsImage, fileIndex: SizeT)

  /** The channel byte that has_alpha tests in each pixel, and the one holding alpha: the
    * pixels are RGBA bytes read as little-endian uint32 values. */
  const RedByte: nat := 0
  const AlphaByte: nat := 3

  /** Some pixel has channel byte k below 255. */
  ghost predicate SomeBelowOpaque(pixels: seq<U32>, k: nat)
    requires k < 4
  {
    exists i :: 0 <= i < |pixels| && ByteOf(pixels[i], k) < 255
  }

  /** The early-return loop of has_alpha over channel byte k of every pixel. */
  method ScanBelowOpaque(pixels: array<U32>, k: nat) returns (found: bool)
    requires k < 4
    ensures found <==> SomeBelowOpaque(pixels[..], k)
  {
    for i := 0 to pixels.Length
      invariant forall j :: 0 <= j < i ==> ByteOf(pixels[j], k) >= 255
    {
      if ByteOf(pixels[i], k) < 255 {
        assert pixels[..][i] == pixels[i];
        return true;
      }
    }
    assert forall j :: 0 <= j < pixels.Length ==> pixels[..][j] == pixels[j];
    return false;
  }

  /** has_alpha as written: `pixel % 256 < 255` for some pixel, which is the red byte. */
  method HasAlphaAsWritten(img: PixelBlockImage) returns (r: bool)
    ensures r <==> exists i :: 0 <= i < img.buffer.Length && img.buffer[i] % 256 < 255
  {
    r := ScanBelowOpaque(img.buffer, RedByte);
    assert forall i :: 0 <= i < img.buffer.Length ==> ByteOf(img.buffer[..][i], RedByte) == img.buffer[i] % 256;
  }

  /** has_alpha as intended: some pixel's alpha byte is below 255; false for no pixels. */
  method HasAlpha(img: PixelBlockImage) returns (r: bool)
    ensures r <==> SomeBelowOpaque(img.buffer[..], AlphaByte)
    ensures img.buffer.Length == 0 ==> !r
  {
    r := ScanBelowOpaque(img.buffer, AlphaByte);
  }

  /** In a pixel read from RGBA bytes, `% 256` is the red byte and byte 3 the alpha byte. */
  lemma ChannelsOfPixel(src: seq<Byte>, pos: nat)
    requires pos + BytesPerPixel <= |src|
    ensures PixelValue(src, pos) % 256 == src[pos]
    ensures ByteOf(PixelValue(src, pos), AlphaByte) == src[pos + 3]
  {
    PackBytes(src[pos], src[pos + 1], src[pos + 2], src[pos + 3]);
  }

  /** An opaque black pixel passes the test as written, and a fully transparent white pixel
    * fails it, whereas the alpha byte says the opposite of both. */
  lemma RedTestedForAlpha()
    ensures var opaqueBlack := Pack(0, 0, 0, 255);
      opaqueBlack % 256 < 255 && ByteOf(opaqueBlack, AlphaByte) == 255
    ensures var clearWhite := Pack(255, 255, 255, 0);
      !(clearWhite % 256 < 255) && ByteOf(clearWhite, AlphaByte) < 255
  {
    PackBytes(0, 0, 0, 255);
    PackBytes(255, 255, 255, 0);
  }

  /** The three encoding stages, with the quality level and the BC7 preset each holds. */
  datatype Stage =
    | EncodeBc1Image(quality: U32)
    | EncodeBc7Image(params: Bc7Params)
    | EncodeBc1AlphaBc7Image(params: Bc7Params, quality: U32)

  /** encode_dds_filter: the stage of each format. */
  function EncodeDdsFilterStage(fmt: Type, quality: U32): (r: Stage)
    ensures fmt == Bc1 <==> r.EncodeBc1Image?
    ensures fmt == Bc7 <==> r.EncodeBc7Image?
    ensures !r.EncodeBc7Image? ==> r.quality == quality
    ensures !r.EncodeBc1Image? ==> r.params == Bc7EncodeParams(quality)
  {
    match fmt
    case Bc1 => EncodeBc1Image(quality)
    case Bc7 => EncodeBc7Image(Bc7EncodeParams(quality))
    case Bc1AlphaBc7 => EncodeBc1AlphaBc7Image(Bc7EncodeParams(quality), quality)
  }

  /** The format a stage records for an image of these pixels, with the corrected alpha
    * test (the alpha byte rather than the red byte that has_alpha tests as written). */
  ghost function StageFormat(stage: Stage, pixels: seq<U32>): (r: Type)
  {
    match stage
    case EncodeBc1Image(_) => Bc1
    case EncodeBc7Image(_) => Bc7
    case EncodeBc1AlphaBc7Image(_, _) => if SomeBelowOpaque(pixels, AlphaByte) then Bc7 else Bc1
  }

  /** The stage of the format a user asks for records that format, except that
    * bc1_alpha_bc7 records bc7 exactly for images with a partly transparent pixel. */
  lemma RecordedFormats(fmt: Type, quality: U32, pixels: seq<U32>)
    ensures var f := StageFormat(EncodeDdsFilterStage(fmt, quality), pixels);
      && f != Bc1AlphaBc7
      && (fmt != Bc1AlphaBc7 ==> f == fmt)
      && (fmt == Bc1AlphaBc7 ==> (f == Bc7 <==> exists i :: 0 <= i < |pixels| && ByteOf(pixels[i], AlphaByte) < 255))
  {
  }

  /** The encoding stage: the files' entries it records formats in, its stage, and the two
    * block encoders. */
  class EncodeDds {
    var filesData: seq<FileData>
    const stage: Stage
    const bc1: (U32, seq<U32>) -> U64
    const bc7: (Bc7Params, seq<U32>) -> (U64, U64)

    constructor(filesData: seq<FileData>, fmt: Type, quality: U32,
                bc1: (U32, seq<U32>) -> U64, bc7: (Bc7Params, seq<U32>) -> (U64, U64))
      ensures this.filesData == filesData && stage == EncodeDdsFilterStage(fmt, quality)
      ensures this.bc1 == bc1 && this.bc7 == bc7
    {
      this.filesData := filesData;
      stage := EncodeDdsFilterStage(fmt, quality);
      this.bc1 := bc1;
      this.bc7 := bc7;
    }

    /** operator(): only the format of the image's own entry changes; the encoded image is
      * in the recorded format and carries the same file index. `rest` stands for the header
      * bytes the image constructor never writes. */
    method Apply(pixelData: PixelBlockData, rest: seq<Byte>) returns (out: DdsData)
      requires pixelData.fileIndex < |filesData| && |rest| == ExtensionSize
      requires var img := pixelData.image; img.buffer.Length == (BlockSide * img.width) * (BlockSide * img.height)
      modifies this
      ensures var i := pixelData.fileIndex;
        filesData == old(filesData)[i := old(filesData)[i].(format := StageFormat(stage, pixelData.image.buffer[..]))]
      ensures out.fileIndex == pixelData.fileIndex && fresh(out.image) && fresh(out.image.blocks)
      ensures out.image.Valid() && out.image.format == filesData[pixelData.fileIndex].format
      ensures out.image.width == pixelData.image.width && out.image.height == pixelData.image.height
      ensures out.image.fileIndex == pixelData.image.fileIndex
      ensures var img := pixelData.image; out.image.format == Bc1 ==>
        && out.image.blocks.Length == img.width * img.height
        && forall b :: 0 <= b < out.image.blocks.Length ==>
          BlockPixels * b + BlockPixels <= img.buffer.Length && out.image.blocks[b] == bc1(stage.quality, BlockAt(img.buffer[..], b))
      ensures var img := pixelData.image; out.image.format == Bc7 ==>
        BlocksDone(out.image.blocks[..], bc7, stage.params, img.buffer[..], img.width * img.height)
    {
      var img := pixelData.image;
      var i := pixelData.fileIndex;
      var format: Type;
      match stage {
        case EncodeBc1Image(_) =>
          format := Bc1;
        case EncodeBc7Image(_) =>
          format := Bc7;
        case EncodeBc1AlphaBc7Image(_, _) =>
          var alpha := HasAlpha(img);
          format := if alpha then Bc7 else Bc1;
      }
      filesData := filesData[i := filesData[i].(format := format)];
      var encoded: DdsImage;
      if format == Bc7 {
        encoded := Bc7Encode(stage.params, img, bc7, rest);
      } else {
        encoded := Bc1Encode(stage.quality, img, bc1, rest);
      }
      out := DdsData(encoded, i);
    }
  }
}
