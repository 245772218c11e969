/**
 * Rearranging RGBA rows into 4x4 pixel blocks: the shared copy loops, `to_pixel_blocks` over
 * every level of a mipmap image, and the single-level `pixel_block_image`.
 */
module PixelBlocks {
  import opened Util
  import opened Arithmetic
  import opened BlockLayout
  import opened Image
  import opened MipmapImage

  /** Four consecutive bytes read as one uint32 on a little-endian machine. */
  function Pack(b0: Byte, b1: Byte, b2: Byte, b3: Byte): (r: U32)
  {
    b0 + 0x100 * b1 + 0x1_0000 * b2 + 0x100_0000 * b3
  }

  /** Byte k (0 for the lowest) of a uint32. */
  function ByteOf(p: U32, k: nat): (r: Byte)
    requires k < 4
  {
    if k == 0 then p % 0x100 else ByteOf(p / 0x100, k - 1)
  }

  /** Reading the four bytes back out of the uint32 gives the bytes that were packed. */
  lemma PackBytes(b0: Byte, b1: Byte, b2: Byte, b3: Byte)
    ensures var p := Pack(b0, b1, b2, b3);
      ByteOf(p, 0) == b0 && ByteOf(p, 1) == b1 && ByteOf(p, 2) == b2 && ByteOf(p, 3) == b3
  {
    var p := Pack(b0, b1, b2, b3);
    DivModUnique(p, 0x100, b1 + 0x100 * b2 + 0x1_0000 * b3, b0);
    var p1 := p / 0x100;
    DivModUnique(p1, 0x100, b2 + 0x100 * b3, b1);
    var p2 := p1 / 0x100;
    DivModUnique(p2, 0x100, b3, b2);
    var p3 := p2 / 0x100;
    DivModUnique(p3, 0x100, 0, b3);
    assert ByteOf(p, 3) == ByteOf(p1, 2) == ByteOf(p2, 1) == ByteOf(p3, 0);
    assert ByteOf(p, 2) == ByteOf(p1, 1) == ByteOf(p2, 0);
  }

  /** The pixel whose 4 bytes start at byte `pos`, as one uint32. */
  function PixelValue(src: seq<Byte>, pos: nat): (r: U32)
    requires pos + BytesPerPixel <= |src|
  {
    Pack(src[pos], src[pos + 1], src[pos + 2], src[pos + 3])
  }

  /** The first n positions of the block layout of a level of padded width w, whose bytes start
    * at `start` in src, have been written to dst from position `at` on: position j holds the
    * pixel SourcePixel(w, j). */
  ghost predicate LevelCopied(src: seq<Byte>, start: nat, w: nat, dst: seq<U32>, at: nat, n: nat)
  {
    && (n > 0 ==> w > 0 && w % BlockSide == 0)
    && at + n <= |dst|
    && forall j :: 0 <= j < n ==>
      && start + BytesPerPixel * SourcePixel(w, j) + BytesPerPixel <= |src|
      && dst[at + j] == PixelValue(src, start + BytesPerPixel * SourcePixel(w, j))
  }

  /** One position of a copied prefix. */
  lemma CopiedAt(src: seq<Byte>, start: nat, w: nat, dst: seq<U32>, at: nat, n: nat, j: nat)
    requires LevelCopied(src, start, w, dst, at, n) && j < n
    ensures w > 0 && w % BlockSide == 0 && at + j < |dst|
    ensures start + BytesPerPixel * SourcePixel(w, j) + BytesPerPixel <= |src|
    ensures dst[at + j] == PixelValue(src, start + BytesPerPixel * SourcePixel(w, j))
  {
  }

  /** dst differs from prior only inside [lo, hi). */
  ghost predicate ChangedOnlyIn(prior: seq<U32>, dst: seq<U32>, lo: nat, hi: nat)
  {
    |dst| == |prior| && forall k :: 0 <= k < |dst| && !(lo <= k < hi) ==> dst[k] == prior[k]
  }

  /** The byte where the 4-pixel row segment oy of block (xb, yb) starts, and where its pixel c
    * starts; the segment lies inside the level. */
  lemma SegmentPosition(w: nat, h: nat, yb: nat, xb: nat, oy: nat, c: nat)
    requires w % BlockSide == 0 && h % BlockSide == 0
    requires xb < w / BlockSide && yb < h / BlockSide && oy < BlockSide && c < BlockSide
    ensures BytePosition(w, BytesPerPixel * (BlockSide * xb), BlockSide * yb + oy) + BytesPerPixel * c
      == BytesPerPixel * ((BlockSide * xb + c) + (BlockSide * yb + oy) * w)
    ensures BytePosition(w, BytesPerPixel * (BlockSide * xb), BlockSide * yb + oy) + BytesPerPixel * BlockSide
      <= BytesPerPixel * (w * h)
  {
    QuotientBounded(0, 1, 1);
    var x, y := BlockSide * xb + BlockSide - 1, BlockSide * yb + oy;
    assert x < w by {
      MulMonotone(xb + 1, w / BlockSide, BlockSide);
    }
    assert y < h by {
      MulMonotone(yb + 1, h / BlockSide, BlockSide);
    }
    RowMajorBounded(x, y, w, h);
  }

  /** Writing the next row segment extends the copied prefix by 4 positions. */
  lemma ExtendCopied(src: seq<Byte>, start: nat, w: nat, h: nat, before: seq<U32>, after: seq<U32>,
                     at: nat, yb: nat, xb: nat, oy: nat)
    requires w % BlockSide == 0 && h % BlockSide == 0
    requires xb < w / BlockSide && yb < h / BlockSide && oy < BlockSide
    requires start + BytesPerPixel * (w * h) <= |src|
    requires LevelCopied(src, start, w, before, at, Cursor(w, yb, xb, oy))
    requires var c0 := at + Cursor(w, yb, xb, oy); c0 + BlockSide <= |before| && ChangedOnlyIn(before, after, c0, c0 + BlockSide)
    requires var pos := start + BytePosition(w, BytesPerPixel * (BlockSide * xb), BlockSide * yb + oy);
      pos + BytesPerPixel * BlockSide <= |src| &&
      forall c :: 0 <= c < BlockSide ==> after[at + Cursor(w, yb, xb, oy) + c] == PixelValue(src, pos + BytesPerPixel * c)
    ensures LevelCopied(src, start, w, after, at, Cursor(w, yb, xb, oy) + BlockSide)
  {
    var c0 := Cursor(w, yb, xb, oy);
    var pos := start + BytePosition(w, BytesPerPixel * (BlockSide * xb), BlockSide * yb + oy);
    forall j | 0 <= j < c0 + BlockSide
      ensures && start + BytesPerPixel * SourcePixel(w, j) + BytesPerPixel <= |src|
              && after[at + j] == PixelValue(src, start + BytesPerPixel * SourcePixel(w, j))
    {
      if j >= c0 {
        var c := j - c0;
        SourcePixelAtCursor(w, yb, xb, oy, c);
        SegmentPosition(w, h, yb, xb, oy, c);
        assert after[at + j] == after[at + c0 + c];
      }
    }
  }

  /** Writes that stay outside a copied prefix keep it copied. */
  lemma CopiedFrame(src: seq<Byte>, start: nat, w: nat, before: seq<U32>, after: seq<U32>,
                    at: nat, n: nat, lo: nat, hi: nat)
    requires LevelCopied(src, start, w, before, at, n) && ChangedOnlyIn(before, after, lo, hi)
    requires at + n <= lo || hi <= at
    ensures LevelCopied(src, start, w, after, at, n)
  {
    forall j | 0 <= j < n
      ensures && start + BytesPerPixel * SourcePixel(w, j) + BytesPerPixel <= |src|
              && after[at + j] == PixelValue(src, start + BytesPerPixel * SourcePixel(w, j))
    {
      assert before[at + j] == PixelValue(src, start + BytesPerPixel * SourcePixel(w, j));
      assert !(lo <= at + j < hi);
    }
  }

  /** std::copy of one 16-byte row segment from src[pos..] into the next 4 uint32 entries. */
  method CopySegment(src: array<Byte>, pos: nat, dst: array<U32>, at: nat)
    requires pos + BytesPerPixel * BlockSide <= src.Length && at + BlockSide <= dst.Length
    modifies dst
    ensures forall c :: 0 <= c < BlockSide ==> dst[at + c] == PixelValue(src[..], pos + BytesPerPixel * c)
    ensures ChangedOnlyIn(old(dst[..]), dst[..], at, at + BlockSide)
  {
    for c := 0 to BlockSide
      invariant forall i :: 0 <= i < c ==> dst[at + i] == PixelValue(src[..], pos + BytesPerPixel * i)
      invariant ChangedOnlyIn(old(dst[..]), dst[..], at, at + BlockSide)
    {
      var p := pos + BytesPerPixel * c;
      dst[at + c] := Pack(src[p], src[p + 1], src[p + 2], src[p + 3]);
    }
  }

  /** The four row segments of block (xb, yb), top to bottom. */
  method CopyBlock(src: array<Byte>, start: nat, w: nat, h: nat, yb: nat, xb: nat, dst: array<U32>, at: nat)
    requires w % BlockSide == 0 && h % BlockSide == 0 && xb < w / BlockSide && yb < h / BlockSide
    requires start + BytesPerPixel * (w * h) <= src.Length && at + w * h <= dst.Length
    requires LevelCopied(src[..], start, w, dst[..], at, Cursor(w, yb, xb, 0))
    modifies dst
    ensures LevelCopied(src[..], start, w, dst[..], at, Cursor(w, yb, xb + 1, 0))
    ensures ChangedOnlyIn(old(dst[..]), dst[..], at + Cursor(w, yb, xb, 0), at + Cursor(w, yb, xb + 1, 0))
  {
    for oy := 0 to BlockSide
      invariant LevelCopied(src[..], start, w, dst[..], at, Cursor(w, yb, xb, oy))
      invariant ChangedOnlyIn(old(dst[..]), dst[..], at + Cursor(w, yb, xb, 0), at + Cursor(w, yb, xb, oy))
    {
      CursorSteps(w, h, yb, xb, oy);
      CursorBounded(w, h, yb, xb, oy, BlockSide - 1);
      SegmentPosition(w, h, yb, xb, oy, 0);
      var pixelStart := start + BytePosition(w, BytesPerPixel * (BlockSide * xb), BlockSide * yb + oy);
      ghost var before := dst[..];
      CopySegment(src, pixelStart, dst, at + Cursor(w, yb, xb, oy));
      ExtendCopied(src[..], start, w, h, before, dst[..], at, yb, xb, oy);
    }
    CursorSteps(w, h, yb, xb, BlockSide);
  }

  /** The blocks of block row yb, left to right. */
  method CopyBlockRow(src: array<Byte>, start: nat, w: nat, h: nat, yb: nat, dst: array<U32>, at: nat)
    requires w % BlockSide == 0 && h % BlockSide == 0 && yb < h / BlockSide
    requires start + BytesPerPixel * (w * h) <= src.Length && at + w * h <= dst.Length
    requires LevelCopied(src[..], start, w, dst[..], at, Cursor(w, yb, 0, 0))
    modifies dst
    ensures LevelCopied(src[..], start, w, dst[..], at, Cursor(w, yb + 1, 0, 0))
    ensures ChangedOnlyIn(old(dst[..]), dst[..], at + Cursor(w, yb, 0, 0), at + Cursor(w, yb + 1, 0, 0))
  {
    for xb := 0 to w / BlockSide
      invariant LevelCopied(src[..], start, w, dst[..], at, Cursor(w, yb, xb, 0))
      invariant ChangedOnlyIn(old(dst[..]), dst[..], at + Cursor(w, yb, 0, 0), at + Cursor(w, yb, xb, 0))
    {
      CopyBlock(src, start, w, h, yb, xb, dst, at);
    }
    CursorSteps(w, h, yb, w / BlockSide, 0);
  }

  /** One level: its block rows, top to bottom, written to dst from position `at` on. */
  method CopyLevel(src: array<Byte>, start: nat, w: nat, h: nat, dst: array<U32>, at: nat)
    requires w % BlockSide == 0 && h % BlockSide == 0
    requires start + BytesPerPixel * (w * h) <= src.Length && at + w * h <= dst.Length
    modifies dst
    ensures LevelCopied(src[..], start, w, dst[..], at, w * h)
    ensures ChangedOnlyIn(old(dst[..]), dst[..], at, at + w * h)
  {
    for yb := 0 to h / BlockSide
      invariant LevelCopied(src[..], start, w, dst[..], at, Cursor(w, yb, 0, 0))
      invariant ChangedOnlyIn(old(dst[..]), dst[..], at, at + Cursor(w, yb, 0, 0))
    {
      CopyBlockRow(src, start, w, h, yb, dst, at);
    }
    CursorSteps(w, h, h / BlockSide, 0, 0);
  }

  /** A pixel of a copied level sits at its block position. */
  lemma PixelPlaced(src: seq<Byte>, start: nat, w: nat, h: nat, dst: seq<U32>, at: nat, x: nat, y: nat)
    requires w % BlockSide == 0 && h % BlockSide == 0 && x < w && y < h
    requires LevelCopied(src, start, w, dst, at, w * h)
    ensures at + BlockIndex(w, x, y) < |dst| && start + BytesPerPixel * (x + y * w) + BytesPerPixel <= |src|
    ensures dst[at + BlockIndex(w, x, y)] == PixelValue(src, start + BytesPerPixel * (x + y * w))
  {
    BlockIndexInverse(w, h, x, y);
  }

  /** The number of pixels in the levels before level i. */
  function Pixels(images: seq<Image>, i: nat): (r: nat)
    requires i <= |images|
  {
    if i == 0 then 0 else Pixels(images, i - 1) + images[i - 1].width * images[i - 1].height
  }

  /** Byte offsets are 4 bytes per pixel. */
  lemma {:induction false} OffsetIsFourPixels(images: seq<Image>, i: nat)
    requires i <= |images|
    ensures Offset(images, i) == BytesPerPixel * Pixels(images, i)
  {
    if i > 0 {
      OffsetIsFourPixels(images, i - 1);
    }
  }

  /** The pixels of level i come after those of every earlier level. */
  lemma {:induction false} PixelsOrdered(images: seq<Image>, i: nat, j: nat)
    requires i < j <= |images|
    ensures Pixels(images, i) + images[i].PixelCount() <= Pixels(images, j)
    decreases j
  {
    assert Pixels(images, j) == Pixels(images, j - 1) + images[j - 1].PixelCount();
    if j > i + 1 {
      PixelsOrdered(images, i, j - 1);
    }
  }

  /** Level k of a mipmap image: its bytes lie in the buffer and its pixel positions lie in a
    * buffer of data_size entries. */
  lemma LevelInside(img: MipmapImage, k: nat)
    requires img.Valid() && k < |img.images|
    ensures var level := img.images[k];
      && level.data.start + BytesPerPixel * (level.PixelCount()) <= img.data.Length
      && Pixels(img.images, k) + level.PixelCount() <= img.data.Length
  {
    OffsetsOrdered(img.images, k, |img.images|);
    OffsetIsFourPixels(img.images, k);
    OffsetIsFourPixels(img.images, |img.images|);
  }

  /** Every entry from position n on is still zero. */
  ghost predicate ZeroFrom(dst: seq<U32>, n: nat)
  {
    forall e :: n <= e < |dst| ==> dst[e] == 0
  }

  /** Levels 0 .. k-1 of the images have been copied, each at its pixel offset. */
  ghost predicate LevelsCopied(src: seq<Byte>, images: seq<Image>, dst: seq<U32>, k: nat)
    reads images
    requires k <= |images|
  {
    forall i :: 0 <= i < k ==>
      LevelCopied(src, images[i].data.start, images[i].width, dst, Pixels(images, i), images[i].PixelCount())
  }

  /** Copying level k into [lo, hi), from its own pixel offset on, keeps the earlier levels and
    * adds level k. */
  lemma EarlierLevelsKept(src: seq<Byte>, images: seq<Image>, before: seq<U32>, after: seq<U32>,
                          k: nat, lo: nat, hi: nat)
    requires k < |images| && lo == Pixels(images, k) && hi == lo + images[k].PixelCount()
    requires LevelsCopied(src, images, before, k) && ChangedOnlyIn(before, after, lo, hi)
    requires LevelCopied(src, images[k].data.start, images[k].width, after, lo, images[k].PixelCount())
    ensures LevelsCopied(src, images, after, k + 1)
  {
    forall i | 0 <= i < k
      ensures LevelCopied(src, images[i].data.start, images[i].width, after, Pixels(images, i), images[i].PixelCount())
    {
      PixelsOrdered(images, i, k);
      CopiedFrame(src, images[i].data.start, images[i].width, before, after,
                  Pixels(images, i), images[i].PixelCount(), lo, hi);
    }
  }

  /** to_pixel_blocks: the levels in index order, each in block layout, into a buffer of
    * data_size uint32 entries (data_size counts bytes, so the last three quarters of the
    * entries keep their initial zero). */
  method ToPixelBlocks(img: MipmapImage) returns (buffer: array<U32>)
    requires img.Valid()
    ensures fresh(buffer) && buffer.Length == img.DataSize()
    ensures LevelsCopied(img.data[..], img.images, buffer[..], |img.images|)
    ensures ZeroFrom(buffer[..], Pixels(img.images, |img.images|))
  {
    buffer := new U32[img.DataSize()](_ => 0);
    var cursor := 0;
    for k := 0 to |img.images|
      invariant cursor == Pixels(img.images, k)
      invariant LevelsCopied(img.data[..], img.images, buffer[..], k)
      invariant ZeroFrom(buffer[..], cursor)
    {
      CopyMipmapLevel(img, k, buffer, cursor);
      cursor := cursor + img.images[k].PixelCount();
    }
  }

  /** The body of the level loop of to_pixel_blocks: level k goes to its pixel offset. */
  method CopyMipmapLevel(img: MipmapImage, k: nat, buffer: array<U32>, cursor: nat)
    requires img.Valid() && k < |img.images| && buffer.Length == img.data.Length
    requires cursor == Pixels(img.images, k)
    requires LevelsCopied(img.data[..], img.images, buffer[..], k) && ZeroFrom(buffer[..], cursor)
    modifies buffer
    ensures LevelsCopied(img.data[..], img.images, buffer[..], k + 1)
    ensures ZeroFrom(buffer[..], cursor + img.images[k].PixelCount())
  {
    var level := img.images[k];
    LevelInside(img, k);
    ghost var before := buffer[..];
    CopyLevel(img.data, level.data.start, level.width, level.height, buffer, cursor);
    EarlierLevelsKept(img.data[..], img.images, before, buffer[..], k, cursor, cursor + level.PixelCount());
  }

  /** A single image rearranged into 4x4 pixel blocks: width and height count blocks, and the
    * image's own dimensions and file index are kept beside them. */
  class PixelBlockImage {
    const width: SizeT
    const height: SizeT
    const buffer: array<U32>
    const imageWidth: SizeT
    const imageHeight: SizeT
    const fileIndex: SizeT
    /** The bytes of the image it was built from. */
    ghost const source: seq<Byte>

    /** The buffer holds every block, block row by block row, each block row-major. */
    ghost predicate Valid()
      reads this, buffer
    {
      && buffer.Length == (BlockSide * width) * (BlockSide * height)
      && LevelCopied(source, 0, BlockSide * width, buffer[..], 0, buffer.Length)
    }

    /** pixel_block_image(png), sequentially: the padded dimensions must be multiples of 4 and the
      * source buffer must hold padded_width * padded_height pixels. */
    constructor(paddedWidth: SizeT, paddedHeight: SizeT, imageWidth: SizeT, imageHeight: SizeT,
                fileIndex: SizeT, png: array<Byte>)
      requires paddedWidth % BlockSide == 0 && paddedHeight % BlockSide == 0
      requires png.Length == paddedWidth * paddedHeight * BytesPerPixel
      ensures Valid() && fresh(buffer)
      ensures width == paddedWidth / BlockSide && height == paddedHeight / BlockSide
      ensures buffer.Length == paddedWidth * paddedHeight
      ensures this.imageWidth == imageWidth && this.imageHeight == imageHeight && this.fileIndex == fileIndex
      ensures source == png[..]
    {
      width := paddedWidth / BlockSide;
      height := paddedHeight / BlockSide;
      this.imageWidth := imageWidth;
      this.imageHeight := imageHeight;
      this.fileIndex := fileIndex;
      var blocks := new U32[paddedWidth * paddedHeight](_ => 0);
      CopyLevel(png, 0, paddedWidth, paddedHeight, blocks, 0);
      buffer := blocks;
      source := png[..];
    }

    /** get_block: the 16 entries of block (x, y). */
    function GetBlock(x: nat, y: nat): (r: seq<U32>)
      reads this, buffer
      requires buffer.Length == (BlockSide * width) * (BlockSide * height) && x < width && y < height
      ensures |r| == BlockPixels
    {
      BlockInside(x, y);
      buffer[BlockStart(x, y)..BlockStart(x, y) + BlockPixels]
    }

    /** The index get_block computes for block (x, y). */
    function BlockStart(x: nat, y: nat): (r: int)
      reads this
    {
      x * BlockSide * BlockSide + y * BlockSide * BlockSide * width
    }

    lemma BlockInside(x: nat, y: nat)
      requires x < width && y < height
      ensures 0 <= BlockStart(x, y)
      ensures BlockStart(x, y) + BlockPixels
        <= (BlockSide * width) * (BlockSide * height)
    {
      RowMajorBounded(x, y, width, height);
      assert (BlockSide * width) * (BlockSide * height) == BlockPixels * (width * height);
    }

    /** Row oy, column c of block (x, y) is pixel (4x + c, 4y + oy) of the source image. */
    lemma BlockHoldsPixels(x: nat, y: nat, oy: nat, c: nat) returns (p: nat)
      requires Valid() && x < width && y < height && oy < BlockSide && c < BlockSide
      ensures p == (BlockSide * x + c) + (BlockSide * y + oy) * (BlockSide * width)
      ensures BytesPerPixel * p + BytesPerPixel <= |source|
      ensures GetBlock(x, y)[BlockSide * oy + c] == PixelValue(source, BytesPerPixel * p)
    {
      var j := EntryPosition(x, y, oy, c);
      p := SourcePixel(BlockSide * width, j);
      CopiedAt(source, 0, BlockSide * width, buffer[..], 0, buffer.Length, j);
      EntryOfBlock(x, y, oy, c, j);
    }

    lemma EntryOfBlock(x: nat, y: nat, oy: nat, c: nat, j: nat)
      requires buffer.Length == (BlockSide * width) * (BlockSide * height)
      requires x < width && y < height && oy < BlockSide && c < BlockSide
      requires j == BlockStart(x, y) + BlockSide * oy + c
      requires j < buffer.Length
      ensures GetBlock(x, y)[BlockSide * oy + c] == buffer[j]
    {
      BlockInside(x, y);
      var start := BlockStart(x, y);
      assert GetBlock(x, y) == buffer[start..start + BlockPixels];
      assert buffer[start..start + BlockPixels][BlockSide * oy + c] == buffer[start + (BlockSide * oy + c)];
    }

    /** Where row oy, column c of block (x, y) sits in the buffer, and which pixel the layout
      * puts there. */
    lemma EntryPosition(x: nat, y: nat, oy: nat, c: nat) returns (j: nat)
      requires x < width && y < height && oy < BlockSide && c < BlockSide
      ensures j == BlockStart(x, y) + BlockSide * oy + c
      ensures j < (BlockSide * width) * (BlockSide * height)
      ensures SourcePixel(BlockSide * width, j) == (BlockSide * x + c) + (BlockSide * y + oy) * (BlockSide * width)
    {
      var w := BlockSide * width;
      assert w / BlockSide == width;
      j := Cursor(w, y, x, oy) + c;
      CursorBounded(w, BlockSide * height, y, x, oy, c);
      SourcePixelAtCursor(w, y, x, oy, c);
    }
  }
}
