/**
 * The levels of a mipmap image as the decoding stage sees them: each level of the shared
 * buffer together with the real dimensions of the picture it holds, which the padded
 * dimensions of the level round up to multiples of 4.
 */
module MipmapLevels {
  import opened Util
  import opened Image
  import opened MipmapImage
  import opened PixelGrid
  import opened Resize

  /** The grid of each level: it starts at the level's offset in the shared buffer, its real
    * picture has the dimensions in `dims` and its rows are as wide as the padded level. */
  function Geometry(images: seq<Image>, dims: seq<(SizeT, SizeT)>): (r: seq<Level>)
    requires |dims| == |images|
    ensures |r| == |images|
    ensures forall i :: 0 <= i < |r| ==>
      r[i] == Level(Offset(images, i), dims[i].0, dims[i].1, images[i].width, images[i].height)
  {
    seq(|images|, i requires 0 <= i < |images| =>
      Level(Offset(images, i), dims[i].0, dims[i].1, images[i].width, images[i].height))
  }

  /** Each level's dimensions are the previous level's, halved as the mipmap chain halves
    * them. */
  predicate Halving(dims: seq<(SizeT, SizeT)>)
  {
    forall i :: 0 <= i < |dims| - 1 ==> dims[i + 1] == (Halve(dims[i].0), Halve(dims[i].1))
  }

  /** No dimension of the chain is wider than a PNG header field. */
  predicate HeaderSized(dims: seq<(SizeT, SizeT)>)
  {
    forall i :: 0 <= i < |dims| ==> dims[i].0 <= UINT32_MAX && dims[i].1 <= UINT32_MAX
  }

  /** Every level is a valid grid inside the buffer, the levels follow each other in order,
    * and each level can be downscaled from the previous one. */
  predicate Stacked(levels: seq<Level>, length: nat)
  {
    && (forall i :: 0 <= i < |levels| ==> levels[i].Valid() && levels[i].End() <= length)
    && (forall i, j :: 0 <= i < j < |levels| ==> levels[i].End() <= levels[j].start)
    && (forall i, j :: 0 <= i < |levels| && j == i + 1 < |levels| ==> Downscalable(levels[i], levels[j], length))
  }

  /** Every level of the chain is at most as large as the first. */
  lemma {:induction false} ChainBounded(w: SizeT, h: SizeT, i: nat)
    requires i < |Chain(w, h)|
    ensures Chain(w, h)[i].0 <= w && Chain(w, h)[i].1 <= h
    decreases w + h
  {
    if i > 0 {
      ChainBounded(Halve(w), Halve(h), i - 1);
    }
  }

  /** The chain has at most one level per unit of its first dimensions, so its length is a
    * size_t for header-sized dimensions. */
  lemma {:induction false} ChainCount(w: SizeT, h: SizeT)
    ensures |Chain(w, h)| <= 1 + w + h
    decreases w + h
  {
    if w > MinimumSize || h > MinimumSize {
      ChainCount(Halve(w), Halve(h));
    }
  }

  /** The level count of header-sized dimensions fits a size_t. */
  lemma LevelsCount(w: SizeT, h: SizeT, mipmaps: bool)
    requires w <= UINT32_MAX && h <= UINT32_MAX
    ensures |Levels(w, h, mipmaps)| <= SIZE_MAX
  {
    ChainCount(w, h);
  }

  /** The levels the mipmap constructor creates halve each other and are header sized when
    * the first one is. */
  lemma LevelsHalving(w: SizeT, h: SizeT, mipmaps: bool)
    requires w <= UINT32_MAX && h <= UINT32_MAX
    ensures Halving(Levels(w, h, mipmaps)) && HeaderSized(Levels(w, h, mipmaps))
  {
    if mipmaps {
      forall i | 0 <= i < |Chain(w, h)| - 1
        ensures Chain(w, h)[i + 1] == (Halve(Chain(w, h)[i].0), Halve(Chain(w, h)[i].1))
      {
        ChainHalves(w, h, i);
      }
      forall i | 0 <= i < |Chain(w, h)| ensures Chain(w, h)[i].0 <= UINT32_MAX && Chain(w, h)[i].1 <= UINT32_MAX {
        ChainBounded(w, h, i);
      }
    }
  }

  /** A raw dimension fits its padded dimension, and padding is only added to a non-empty
    * dimension. */
  lemma PaddedDimension(n: SizeT)
    requires n <= UINT32_MAX
    ensures n <= NextDivisibleBy4(n)
    ensures n < NextDivisibleBy4(n) ==> n > 0
  {
  }

  /** Halving a dimension as the mipmap chain does leaves twice the result inside the padded
    * dimension it was halved from. */
  lemma HalvedFits(n: SizeT)
    requires n <= UINT32_MAX
    ensures 2 * Halve(n) <= NextDivisibleBy4(n)
  {
  }

  /** The bytes of a level, as the mipmap image counts them, are those of its grid. */
  lemma LevelBytes(img: Image)
    ensures img.ByteCount() == PixelBytes * (img.width * img.height)
  {
  }

  /** The levels of a valid mipmap image whose dimensions halve each other are stacked in its
    * buffer. */
  lemma GeometryStacked(m: MipmapImage, dims: seq<(SizeT, SizeT)>)
    requires m.Valid() && PaddedAs(m.images, dims) && Halving(dims) && HeaderSized(dims)
    ensures Stacked(Geometry(m.images, dims), m.data.Length)
  {
    LevelsStacked(m.images, dims, m.data.Length);
  }

  /** Levels laid out one after the other in a buffer of `length` bytes, with padded
    * dimensions that halve each other, are stacked in it. */
  lemma LevelsStacked(images: seq<Image>, dims: seq<(SizeT, SizeT)>, length: nat)
    requires length == Offset(images, |images|) && PaddedAs(images, dims) && Halving(dims) && HeaderSized(dims)
    ensures Stacked(Geometry(images, dims), length)
  {
    var levels := Geometry(images, dims);
    forall i | 0 <= i < |levels| ensures levels[i].Valid() && levels[i].End() <= length {
      LevelInside(images, dims, length, i);
    }
    forall i, j | 0 <= i < j < |levels| ensures levels[i].End() <= levels[j].start {
      LevelBytes(images[i]);
      OffsetsOrdered(images, i, j);
    }
    forall i, j | 0 <= i < |levels| && j == i + 1 < |levels| ensures Downscalable(levels[i], levels[j], length) {
      LevelDownscalable(images, dims, length, i);
    }
  }

  /** Each level is a valid grid inside the buffer. */
  lemma LevelInside(images: seq<Image>, dims: seq<(SizeT, SizeT)>, length: nat, i: nat)
    requires length == Offset(images, |images|) && PaddedAs(images, dims) && HeaderSized(dims) && i < |dims|
    ensures Geometry(images, dims)[i].Valid() && Geometry(images, dims)[i].End() <= length
  {
    PaddedDimension(dims[i].0);
    PaddedDimension(dims[i].1);
    LevelBytes(images[i]);
    OffsetsOrdered(images, i, |dims|);
  }

  /** Each level after the first can be downscaled from the previous one. */
  lemma LevelDownscalable(images: seq<Image>, dims: seq<(SizeT, SizeT)>, length: nat, i: nat)
    requires length == Offset(images, |images|) && PaddedAs(images, dims) && Halving(dims) && HeaderSized(dims)
    requires i + 1 < |dims|
    ensures Downscalable(Geometry(images, dims)[i], Geometry(images, dims)[i + 1], length)
  {
    LevelInside(images, dims, length, i);
    LevelInside(images, dims, length, i + 1);
    HalvedFits(dims[i].0);
    HalvedFits(dims[i].1);
    LevelBytes(images[i]);
    OffsetsOrdered(images, i, i + 1);
  }

  /** A dimension the chain halves to 1 and the 1 it becomes both pad to 4. */
  lemma LastHalvingPadsTo4(n: SizeT)
    requires n > MinimumSize && Halve(n) <= MinimumSize
    ensures Halve(n) == 1 && NextDivisibleBy4(n) == 4 && NextDivisibleBy4(Halve(n)) == 4
  {
    assert n == 2 || n == 3;
  }

  /** box_downscale's assert fails on the last two levels of every mipmap chain of two or
    * more levels: the last level is at most 1x1 and the one before it at most 3x3, so both
    * pad a dimension that was halved to 4, and 4 >> 1 is 2. */
  lemma ChainBreaksAssert(images: seq<Image>, w: SizeT, h: SizeT)
    requires PaddedAs(images, Chain(w, h)) && |images| >= 2
    ensures var n := |images|;
      var levels := Geometry(images, Chain(w, h));
      !HalvesAsAsserted(levels[n - 2], levels[n - 1])
  {
    var c := Chain(w, h);
    var n := |c|;
    ChainHalves(w, h, n - 2);
    ChainHalves(w, h, n - 1);
    var levels := Geometry(images, c);
    assert levels[n - 2].paddedWidth == NextDivisibleBy4(c[n - 2].0) && levels[n - 1].paddedWidth == NextDivisibleBy4(c[n - 1].0);
    assert levels[n - 2].paddedHeight == NextDivisibleBy4(c[n - 2].1) && levels[n - 1].paddedHeight == NextDivisibleBy4(c[n - 1].1);
    if c[n - 2].0 > MinimumSize {
      LastHalvingPadsTo4(c[n - 2].0);
    } else {
      LastHalvingPadsTo4(c[n - 2].1);
    }
  }
}
