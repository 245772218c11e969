/**
 * One RGBA image level: its padded dimensions and the view of its bytes inside the buffer
 * its owner allocates, with the byte arithmetic of image.cpp.
 */
module Image {
  import opened Util
  import opened Arithmetic

  const BytesPerPixel: nat := 4

  /** A view of `size` bytes starting at `start` in the owner's buffer. */
  datatype Span = Span(start: nat, size: nat)

  /** get_byte_position: byte byteX of row byteY, in rows of paddedWidth pixels. */
  function BytePosition(paddedWidth: nat, byteX: nat, byteY: nat): (r: nat)
  {
    byteX + byteY * paddedWidth * BytesPerPixel
  }

  /** The bytes of pixel (x, y) are the 4 bytes of pixel number x + y*w, and they lie
    * inside the w*h*4 bytes of the image. */
  lemma PixelPosition(w: nat, h: nat, x: nat, y: nat)
    requires x < w && y < h
    ensures BytePosition(w, x * BytesPerPixel, y) == BytesPerPixel * (x + y * w)
    ensures BytePosition(w, x * BytesPerPixel, y) + BytesPerPixel <= w * h * BytesPerPixel
  {
    RowMajorBounded(x, y, w, h);
  }

  /** Distinct pixels of a row-major image occupy disjoint bytes. */
  lemma PixelsDisjoint(w: nat, x1: nat, y1: nat, x2: nat, y2: nat)
    requires x1 < w && x2 < w && (x1, y1) != (x2, y2)
    ensures var p1, p2 := BytePosition(w, x1 * BytesPerPixel, y1), BytePosition(w, x2 * BytesPerPixel, y2);
      p1 + BytesPerPixel <= p2 || p2 + BytesPerPixel <= p1
  {
    if x1 + y1 * w == x2 + y2 * w {
      DivModUnique(x1 + y1 * w, w, y1, x1);
      DivModUnique(x2 + y2 * w, w, y2, x2);
    }
  }

  class Image {
    /** Width and height of the buffer, in pixels, both multiples of 4. */
    const width: SizeT
    const height: SizeT
    var data: Span

    /** image(width, height): the dimensions are padded to the next multiple of 4 and the
      * image has no bytes yet. */
    constructor(width: SizeT, height: SizeT)
      ensures this.width == NextDivisibleBy4(width) && this.height == NextDivisibleBy4(height)
      ensures this.width % 4 == 0 && this.height % 4 == 0
      ensures data == Span(0, 0)
    {
      this.width := NextDivisibleBy4(width);
      this.height := NextDivisibleBy4(height);
      data := Span(0, 0);
    }

    /** The number of pixels of the padded image. */
    function PixelCount(): (r: nat)
    {
      width * height
    }

    /** The number of bytes the image's view must hold. */
    function ByteCount(): (r: nat)
    {
      width * height * BytesPerPixel
    }

    /** set_data: the view must hold exactly width*height pixels. */
    method SetData(d: Span)
      requires d.size == ByteCount()
      modifies this
      ensures data == d
    {
      data := d;
    }

    /** The owner-buffer index of the byte at byte column byteX of row byteY. */
    function ByteIndex(byteX: nat, byteY: nat): (r: nat)
      reads this
    {
      data.start + BytePosition(width, byteX, byteY)
    }

    /** row_start: the first byte of a row, which for a row of the image lies inside its
      * view together with the whole row. */
    function RowStart(row: nat): (r: nat)
      reads this
      ensures data.size == ByteCount() && row < height ==>
        data.start <= r && r + width * BytesPerPixel <= data.start + data.size
    {
      assert data.size == ByteCount() && row < height ==>
        BytePosition(width, 0, row) + width * BytesPerPixel <= data.size by {
        if row < height {
          RowInside(row);
        }
      }
      ByteIndex(0, row)
    }

    lemma RowInside(row: nat)
      requires row < height
      ensures BytePosition(width, 0, row) + width * BytesPerPixel <= ByteCount()
    {
      MulMonotone(row + 1, height, width * BytesPerPixel);
    }

    /** get_pixel: the 4 bytes starting at byte column 4x of row y. For a pixel of the image,
      * they lie inside its view. */
    function PixelIndex(x: nat, y: nat): (r: nat)
      reads this
      ensures data.size == ByteCount() && x < width && y < height ==>
        data.start <= r && r + BytesPerPixel <= data.start + data.size
    {
      assert data.size == ByteCount() && x < width && y < height ==>
        BytePosition(width, x * BytesPerPixel, y) + BytesPerPixel <= data.size by {
        if x < width && y < height {
          PixelPosition(width, height, x, y);
        }
      }
      ByteIndex(x * BytesPerPixel, y)
    }

    /** The bytes get_pixel returns, read from the owner's buffer. */
    function GetPixel(buffer: seq<Byte>, x: nat, y: nat): (r: seq<Byte>)
      reads this
      requires PixelIndex(x, y) + BytesPerPixel <= |buffer|
      ensures |r| == BytesPerPixel && forall k :: 0 <= k < BytesPerPixel ==> r[k] == buffer[PixelIndex(x, y) + k]
    {
      buffer[PixelIndex(x, y)..PixelIndex(x, y) + BytesPerPixel]
    }
  }
}
