/**
 * BC7 encoding of a pixel-block image in the png2dds generation: the ISPC parameter preset of
 * each quality level, the split of every block row into chunks of at most 64 blocks, and the
 * loop that hands each chunk to the block encoder. The ISPC encoder is a parameter: a function
 * from the preset and the 16 pixels of one block to the two words of its encoding.
 */
module Dds {
  import opened Util
  import opened BlockLayout
  import opened Png2ddsFormat
  import opened DdsImage
  import opened PixelBlocks

  /** The bc7e_compress_block_params_init_* preset chosen, from fastest to slowest. */
  datatype Bc7Params = UltraFast | VeryFast | Fast | Basic | Slow | VerySlow | Slowest

  /** Position of a preset in the order from fastest to slowest. */
  function Slowness(p: Bc7Params): (r: nat)
  {
    match p
    case UltraFast => 0
    case VeryFast => 1
    case Fast => 2
    case Basic => 3
    case Slow => 4
    case VerySlow => 5
    case Slowest => 6
  }

  /** bc7_encode_params: levels 0 to 5 pick the presets in order, 6 and every larger level
    * the slowest. */
  function Bc7EncodeParams(level: U32): (r: Bc7Params)
    ensures Slowness(r) == Min(level, 6)
  {
    match level
    case 0 => UltraFast
    case 1 => VeryFast
    case 2 => Fast
    case 3 => Basic
    case 4 => Slow
    case 5 => VerySlow
    case _ => Slowest
  }

  /** A higher level never picks a faster preset, and levels below 7 pick different ones. */
  lemma Bc7ParamsOrdered(a: U32, b: U32)
    ensures a <= b ==> Slowness(Bc7EncodeParams(a)) <= Slowness(Bc7EncodeParams(b))
    ensures a != b && a <= 6 && b <= 6 ==> Bc7EncodeParams(a) != Bc7EncodeParams(b)
  {
  }

  /** blocks_to_process: blocks encoded by one call of the ISPC encoder. */
  const BlocksToProcess: nat := 64

  /** The chunks of a block row of `width` blocks from block x on: (first block, count). */
  function ChunksFrom(x: nat, width: nat): (r: seq<(nat, nat)>)
    decreases width - x
  {
    if x >= width then [] else [(x, Min(BlocksToProcess, width - x))] + ChunksFrom(x + BlocksToProcess, width)
  }

  /** The chunks of a block row. */
  function Chunks(width: nat): (r: seq<(nat, nat)>)
  {
    ChunksFrom(0, width)
  }

  /** The chunks from a multiple of 64 start at multiples of 64, hold 1 to 64 blocks each, follow
    * each other without gap or overlap and end at the row's end. */
  lemma {:induction false} ChunksFromPartition(x: nat, width: nat)
    requires x % BlocksToProcess == 0
    ensures var c := ChunksFrom(x, width);
      && (c == [] <==> x >= width)
      && (c != [] ==> c[0].0 == x && c[|c| - 1].0 + c[|c| - 1].1 == width)
      && (forall i :: 0 <= i < |c| ==> c[i].0 % BlocksToProcess == 0 && 1 <= c[i].1 <= BlocksToProcess)
      && (forall i :: 0 <= i < |c| - 1 ==> c[i].0 + c[i].1 == c[i + 1].0)
    decreases width - x
  {
    if x < width {
      var c := ChunksFrom(x, width);
      var rest := ChunksFrom(x + BlocksToProcess, width);
      ChunksFromPartition(x + BlocksToProcess, width);
      assert c == [(x, Min(BlocksToProcess, width - x))] + rest;
      assert forall i :: 1 <= i < |c| ==> c[i] == rest[i - 1];
    }
  }

  /** The chunks of a row cover its blocks exactly: block x < width lies in exactly one chunk. */
  lemma ChunksCover(width: nat, x: nat)
    requires x < width
    ensures var c := Chunks(width);
      && (exists i :: 0 <= i < |c| && c[i].0 <= x < c[i].0 + c[i].1)
      && (forall i, j :: 0 <= i < |c| && 0 <= j < |c| && c[i].0 <= x < c[i].0 + c[i].1 && c[j].0 <= x < c[j].0 + c[j].1 ==> i == j)
  {
    var c := Chunks(width);
    ChunksFromPartition(0, width);
    var i := x / BlocksToProcess;
    ChunkStart(width, i);
    forall i, j | 0 <= i < |c| && 0 <= j < |c| && c[i].0 <= x < c[i].0 + c[i].1 && c[j].0 <= x < c[j].0 + c[j].1
      ensures i == j
    {
      ChunkStart(width, i);
      ChunkStart(width, j);
    }
  }

  /** Chunk i of a row starts at block 64i and exists exactly while 64i is inside the row. */
  lemma {:induction false} ChunkStart(width: nat, i: nat)
    ensures i < |Chunks(width)| <==> BlocksToProcess * i < width
    ensures i < |Chunks(width)| ==> Chunks(width)[i] == (BlocksToProcess * i, Min(BlocksToProcess, width - BlocksToProcess * i))
  {
    FromStart(0, width, i);
  }

  lemma {:induction false} FromStart(x: nat, width: nat, i: nat)
    ensures i < |ChunksFrom(x, width)| <==> x + BlocksToProcess * i < width
    ensures i < |ChunksFrom(x, width)| ==> ChunksFrom(x, width)[i] == (x + BlocksToProcess * i, Min(BlocksToProcess, width - x - BlocksToProcess * i))
    decreases width - x
  {
    if x < width && i > 0 {
      FromStart(x + BlocksToProcess, width, i - 1);
    }
  }

  /** The encoding the block encoder gives block b (counted row by row) of a pixel-block buffer. */
  function EncodedBlock(encoder: (Bc7Params, seq<U32>) -> (U64, U64), params: Bc7Params, pixels: seq<U32>, b: nat): (r: (U64, U64))
    requires BlockPixels * b + BlockPixels <= |pixels|
  {
    encoder(params, BlockAt(pixels, b))
  }

  /** Words 2b and 2b + 1 hold the encoding of block b. */
  ghost predicate BlockDone(words: seq<U64>, encoder: (Bc7Params, seq<U32>) -> (U64, U64), params: Bc7Params, pixels: seq<U32>, b: nat)
  {
    && BlockPixels * b + BlockPixels <= |pixels| && 2 * b + 2 <= |words|
    && words[2 * b] == EncodedBlock(encoder, params, pixels, b).0
    && words[2 * b + 1] == EncodedBlock(encoder, params, pixels, b).1
  }

  /** Blocks 0 to n - 1 are encoded. */
  ghost predicate BlocksDone(words: seq<U64>, encoder: (Bc7Params, seq<U32>) -> (U64, U64), params: Bc7Params, pixels: seq<U32>, n: nat)
  {
    forall b :: 0 <= b < n ==> BlockDone(words, encoder, params, pixels, b)
  }

  /** bc7e_compress_blocks(count, dst, pixels, params): each of the count blocks starting at
    * block `first` is encoded independently into the two words at dst[2 * block]; nothing
    * else is written. */
  method CompressBlocks(count: nat, dst: array<U64>, first: nat, pixels: seq<U32>,
                        params: Bc7Params, encoder: (Bc7Params, seq<U32>) -> (U64, U64))
    requires 2 * (first + count) <= dst.Length && BlockPixels * (first + count) <= |pixels|
    modifies dst
    ensures forall b :: first <= b < first + count ==> BlockDone(dst[..], encoder, params, pixels, b)
    ensures forall i :: 0 <= i < dst.Length && !(2 * first <= i < 2 * (first + count)) ==> dst[i] == old(dst[i])
  {
    forall i | 2 * first <= i < 2 * (first + count) {
      dst[i] := if i % 2 == 0 then EncodedBlock(encoder, params, pixels, i / 2).0
                else EncodedBlock(encoder, params, pixels, i / 2).1;
    }
    forall b | first <= b < first + count ensures BlockDone(dst[..], encoder, params, pixels, b) {
      assert (2 * b) % 2 == 0 && (2 * b) / 2 == b && (2 * b + 1) % 2 == 1 && (2 * b + 1) / 2 == b;
    }
  }

  /** Encoding blocks from n on leaves the first n encoded. */
  lemma DoneKept(before: seq<U64>, after: seq<U64>, encoder: (Bc7Params, seq<U32>) -> (U64, U64),
                 params: Bc7Params, pixels: seq<U32>, n: nat)
    requires |before| == |after| && BlocksDone(before, encoder, params, pixels, n)
    requires forall i :: 0 <= i < |after| && i < 2 * n ==> after[i] == before[i]
    ensures BlocksDone(after, encoder, params, pixels, n)
  {
    forall b | 0 <= b < n ensures BlockDone(after, encoder, params, pixels, b) {
      assert BlockDone(before, encoder, params, pixels, b);
    }
  }

  /** The first block of chunk (x, y) counted row by row, where both images find it. */
  lemma ChunkPlace(image: PixelBlockImage, dds: DdsImage, x: nat, y: nat, count: nat)
    requires dds.width == image.width && dds.height == image.height && dds.blockOffset == 2
    requires y < image.height && x + count <= image.width
    requires image.buffer.Length == (BlockSide * image.width) * (BlockSide * image.height)
    requires dds.Valid()
    ensures dds.Block(x, y) == 2 * (x + y * image.width)
    ensures image.BlockStart(x, y) == BlockPixels * (x + y * image.width)
    ensures 2 * (x + y * image.width + count) <= dds.blocks.Length
    ensures BlockPixels * (x + y * image.width + count) <= image.buffer.Length
  {
    var w: nat, h: nat := image.width, image.height;
    var n := x + y * w + count;
    assert n <= w * h by {
      Arithmetic.MulMonotone(y + 1, h, w);
    }
    assert dds.blocks.Length == 2 * (w * h);
    assert image.buffer.Length == BlockPixels * (w * h);
    Arithmetic.MulMonotone(n, w * h, BlockPixels);
  }

  /** bc7_encode: a bc7 image of the pixel-block image's size, every block of it the
    * encoding of the same block of pixels. The rest of the header stands for the bytes the
    * image constructor never writes. */
  method Bc7Encode(params: Bc7Params, image: PixelBlockImage, encoder: (Bc7Params, seq<U32>) -> (U64, U64), rest: seq<Byte>)
    returns (dds: DdsImage)
    requires image.buffer.Length == (BlockSide * image.width) * (BlockSide * image.height)
    requires |rest| == ExtensionSize
    ensures fresh(dds) && fresh(dds.blocks) && dds.Valid()
    ensures dds.format == Bc7 && dds.blockOffset == 2 && dds.width == image.width && dds.height == image.height
    ensures dds.fileIndex == image.fileIndex
    ensures dds.header == GetHeader(Bc7, image.imageWidth, image.imageHeight, 8 * dds.blocks.Length, rest)
    ensures BlocksDone(dds.blocks[..], encoder, params, image.buffer[..], image.width * image.height)
  {
    dds := new DdsImage(image, Bc7, rest);
    assert dds.blocks.Length == 2 * (image.width * image.height);
    for blockY := 0 to dds.height
      invariant BlocksDone(dds.blocks[..], encoder, params, image.buffer[..], blockY * image.width)
    {
      EncodeRow(params, image, encoder, dds, blockY);
      assert (blockY + 1) * image.width == blockY * image.width + image.width;
    }
  }

  /** One iteration of the outer loop of bc7_encode: the chunks of block row y, each handed to
    * the encoder with the pixels of its first block onwards. */
  method EncodeRow(params: Bc7Params, image: PixelBlockImage, encoder: (Bc7Params, seq<U32>) -> (U64, U64),
                   dds: DdsImage, blockY: nat)
    requires image.buffer.Length == (BlockSide * image.width) * (BlockSide * image.height)
    requires dds.Valid() && dds.blockOffset == 2 && dds.width == image.width && dds.height == image.height
    requires blockY < image.height
    requires BlocksDone(dds.blocks[..], encoder, params, image.buffer[..], blockY * image.width)
    modifies dds.blocks
    ensures BlocksDone(dds.blocks[..], encoder, params, image.buffer[..], blockY * image.width + image.width)
  {
    var row := blockY * image.width;
    var blockX := 0;
    ghost var k := 0;
    while blockX < dds.width
      invariant blockX % BlocksToProcess == 0 && blockX == BlocksToProcess * k
      invariant blockX < dds.width ==> k < |Chunks(dds.width)|
      invariant blockX >= dds.width ==> blockX - BlocksToProcess < dds.width
      invariant BlocksDone(dds.blocks[..], encoder, params, image.buffer[..], row + Min(blockX, dds.width))
      decreases dds.width - blockX
    {
      // In some cases the number of blocks of the image may not be divisible by 64.
      var count := Min(BlocksToProcess, dds.width - blockX);
      ChunkStart(dds.width, k);
      assert Chunks(dds.width)[k] == (blockX, count);
      ChunkPlace(image, dds, blockX, blockY, count);
      var first := dds.Block(blockX, blockY) / 2;
      ghost var before := dds.blocks[..];
      CompressBlocks(count, dds.blocks, first, image.buffer[..], params, encoder);
      DoneKept(before, dds.blocks[..], encoder, params, image.buffer[..], first);
      blockX := blockX + BlocksToProcess;
      k := k + 1;
      ChunkStart(dds.width, k);
    }
  }

  /** In the encoded image, block (x, y) holds the encoding of get_block(x, y). */
  lemma EncodesGetBlock(image: PixelBlockImage, encoder: (Bc7Params, seq<U32>) -> (U64, U64), params: Bc7Params,
                        dds: DdsImage, x: nat, y: nat)
    requires image.buffer.Length == (BlockSide * image.width) * (BlockSide * image.height)
    requires dds.Valid() && dds.blockOffset == 2 && dds.width == image.width && dds.height == image.height
    requires BlocksDone(dds.blocks[..], encoder, params, image.buffer[..], image.width * image.height)
    requires x < image.width && y < image.height
    ensures dds.blocks[dds.Block(x, y)] == encoder(params, image.GetBlock(x, y)).0
    ensures dds.blocks[dds.Block(x, y) + 1] == encoder(params, image.GetBlock(x, y)).1
  {
    ChunkPlace(image, dds, x, y, 1);
    var b := x + y * image.width;
    assert BlockDone(dds.blocks[..], encoder, params, image.buffer[..], b);
    assert BlockAt(image.buffer[..], b) == image.GetBlock(x, y);
  }

  /** The pixels of block b, counted row by row, of a pixel-block buffer. */
  function BlockAt(pixels: seq<U32>, b: nat): (r: seq<U32>)
    requires BlockPixels * b + BlockPixels <= |pixels|
    ensures |r| == BlockPixels
  {
    pixels[BlockPixels * b..BlockPixels * b + BlockPixels]
  }

  /** bc1_encode, sequentially: a bc1 image of the pixel-block image's size whose word b is
    * the rgbcx encoding, at the quality level, of block b. The rgbcx block encoder is a
    * parameter. */
  method Bc1Encode(quality: U32, image: PixelBlockImage, encoder: (U32, seq<U32>) -> U64, rest: seq<Byte>)
    returns (dds: DdsImage)
    requires image.buffer.Length == (BlockSide * image.width) * (BlockSide * image.height)
    requires |rest| == ExtensionSize
    ensures fresh(dds) && fresh(dds.blocks) && dds.Valid()
    ensures dds.format == Bc1 && dds.blockOffset == 1 && dds.width == image.width && dds.height == image.height
    ensures dds.fileIndex == image.fileIndex
    ensures dds.header == GetHeader(Bc1, image.imageWidth, image.imageHeight, 8 * dds.blocks.Length, rest)
    ensures dds.blocks.Length == image.width * image.height
    ensures forall b :: 0 <= b < dds.blocks.Length ==>
      BlockPixels * b + BlockPixels <= image.buffer.Length && dds.blocks[b] == encoder(quality, BlockAt(image.buffer[..], b))
  {
    dds := new DdsImage(image, Bc1, rest);
    var n := dds.blocks.Length;
    assert n == image.width * image.height;
    assert image.buffer.Length == BlockPixels * n;
    for blockIndex := 0 to n
      invariant forall b :: 0 <= b < blockIndex ==>
        BlockPixels * b + BlockPixels <= image.buffer.Length && dds.blocks[b] == encoder(quality, BlockAt(image.buffer[..], b))
    {
      Arithmetic.MulMonotone(blockIndex + 1, n, BlockPixels);
      dds.blocks[blockIndex] := encoder(quality, BlockAt(image.buffer[..], blockIndex));
    }
  }
}
