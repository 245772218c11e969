/**
 * The records the pipeline stages share: the per-file data the stages fill in, and the file
 * index that marks a file whose earlier stage failed.
 */
module FilterCommon {
  import opened Util
  import Png2ddsFormat

  /** Files using this index have triggered errors and are not processed further. */
  const ErrorFileIndex: SizeT := SIZE_MAX

  /** The real dimensions and level count set while decoding, and the format set while
    * encoding. */
  datatype FileData = FileData(width: SizeT, height: SizeT, mipmaps: SizeT, format: Png2ddsFormat.Type)

  /** A loaded PNG file: its bytes and its index in the work list. */
  datatype PngFile = PngFile(buffer: seq<Byte>, fileIndex: SizeT)
}
