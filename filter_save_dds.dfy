/**
 * The saving stage of the png2dds pipeline: the bytes of a .dds file, written in sequence to
 * the output path of the file's work-list entry. The DDS header of this generation is built by
 * dds_header, which is not part of this model: it is a parameter of the stage.
 */
module SaveDdsFilter {
  import opened Util
  import opened Wrappers
  import opened ByteOrder
  import opened Png2ddsFormat
  import opened FilterCommon
  import opened Paths
  import opened DdsImage
  import opened EncodeDdsFilter

  /** The magic number every DDS file starts with. */
  const Magic: seq<Byte> := Ascii("DDS ")

  /** DXGI_FORMAT_BC7_UNORM and D3D10_RESOURCE_DIMENSION_TEXTURE2D. */
  const DxgiFormatBc7Unorm: U32 := 98
  const ResourceDimensionTexture2d: U32 := 3

  /** header_extension: a DDS_HEADER_DXT10 for one BC7 2D texture, no flags. */
  function HeaderExtension(): (r: seq<Byte>)
    ensures |r| == ExtensionSize
  {
    DwordBytes([DxgiFormatBc7Unorm, ResourceDimensionTexture2d, 0, 1, 0])
  }

  /** A file the stage writes: where, and its bytes. */
  datatype DdsFile = DdsFile(path: Path, bytes: seq<Byte>)

  /** The bytes of a .dds file: the magic, the header, the DX10 extension for bc7 only, and
    * the block words as they lie in memory. */
  function FileBytes(header: seq<Byte>, format: Type, blocks: seq<U64>): (r: seq<Byte>)
  {
    Magic + header + (if format == Bc7 then HeaderExtension() else []) + WordBytes(blocks)
  }

  /** Where the blocks start in a file with this header. */
  function BlocksStart(header: seq<Byte>, format: Type): (r: nat)
  {
    |Magic| + |header| + if format == Bc7 then ExtensionSize else 0
  }

  /** A reader of the file finds the magic, then the header, then the extension exactly for
    * bc7, and reads every block word back from the bytes after them. */
  lemma FileReadBack(header: seq<Byte>, format: Type, blocks: seq<U64>)
    ensures var f := FileBytes(header, format, blocks);
      && |f| == BlocksStart(header, format) + 8 * |blocks|
      && f[..4] == Ascii("DDS ")
      && f[4..4 + |header|] == header
      && (format == Bc7 ==> f[4 + |header|..4 + |header| + ExtensionSize] == HeaderExtension())
      && Split(f[BlocksStart(header, format)..], 8) == blocks
  {
    var f := FileBytes(header, format, blocks);
    var ext := if format == Bc7 then HeaderExtension() else [];
    assert f == Magic + header + ext + WordBytes(blocks);
    assert f[BlocksStart(header, format)..] == WordBytes(blocks);
    WordsOfWordBytes(blocks);
  }

  /** The members of the extension as a reader finds them. */
  lemma ExtensionFields()
    ensures ValueOf(HeaderExtension()[0..4]) == DxgiFormatBc7Unorm
    ensures ValueOf(HeaderExtension()[4..8]) == ResourceDimensionTexture2d
    ensures ValueOf(HeaderExtension()[8..12]) == 0
    ensures ValueOf(HeaderExtension()[12..16]) == 1
    ensures ValueOf(HeaderExtension()[16..20]) == 0
  {
    var values: seq<U32> := [DxgiFormatBc7Unorm, ResourceDimensionTexture2d, 0, 1, 0];
    DwordAt(values, 0);
    DwordAt(values, 1);
    DwordAt(values, 2);
    DwordAt(values, 3);
    DwordAt(values, 4);
  }

  /** The saving stage: the files' entries and paths it reads, and dds_header(format, width,
    * height, block size in bytes, mipmaps). */
  class SaveDds {
    const filesData: seq<FileData>
    const paths: seq<PathPair>
    const ddsHeader: (Type, SizeT, SizeT, SizeT, SizeT) -> seq<Byte>

    constructor(filesData: seq<FileData>, paths: seq<PathPair>, ddsHeader: (Type, SizeT, SizeT, SizeT, SizeT) -> seq<Byte>)
      ensures this.filesData == filesData && this.paths == paths && this.ddsHeader == ddsHeader
    {
      this.filesData := filesData;
      this.paths := paths;
      this.ddsHeader := ddsHeader;
    }

    /** operator(): nothing for an image of a failed file; otherwise the .dds file at the
      * entry's output path, with the header of the entry's format, real size and level
      * count, and a block size of 8 bytes per block word. */
    method Apply(dds: DdsData) returns (written: Option<DdsFile>)
      requires dds.fileIndex != ErrorFileIndex ==> dds.fileIndex < |filesData| && dds.fileIndex < |paths|
      ensures written.None? <==> dds.fileIndex == ErrorFileIndex
      ensures written.Some? ==>
        var data := filesData[dds.fileIndex];
        var blockSizeBytes := 8 * dds.image.blocks.Length % SIZE_MODULUS;
        var header := ddsHeader(data.format, data.width, data.height, blockSizeBytes, data.mipmaps);
        written.value == DdsFile(paths[dds.fileIndex].output, FileBytes(header, data.format, dds.image.blocks[..]))
    {
      var fileIndex := dds.fileIndex;
      if fileIndex == ErrorFileIndex {
        return None;
      }
      var output := paths[fileIndex].output;
      var bytes := Magic;
      var blockSizeBytes := 8 * dds.image.blocks.Length % SIZE_MODULUS;
      var data := filesData[fileIndex];
      var header := ddsHeader(data.format, data.width, data.height, blockSizeBytes, data.mipmaps);
      bytes := bytes + header;
      if data.format == Bc7 {
        bytes := bytes + HeaderExtension();
      }
      bytes := bytes + WordBytes(dds.image.blocks[..]);
      return Some(DdsFile(output, bytes));
    }
  }
}
