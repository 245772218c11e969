/**
 * An image with its mipmap levels: the chain of level dimensions, each halving the
 * previous one, and a single buffer holding every level's bytes one level after another.
 */
module MipmapImage {
  import opened Util
  import opened Image
  import opened Sequences

  const MinimumSize: SizeT := 1

  /** A dimension above the minimum is halved (shifted right by one); others stay. */
  function Halve(n: SizeT): (r: SizeT)
    ensures n > MinimumSize ==> r == n / 2 && r < n
    ensures n <= MinimumSize ==> r == n
  {
    if n > MinimumSize then n / 2 else n
  }

  /** The raw dimensions of the levels when mipmaps are generated: halving both dimensions
    * until neither is above the minimum. */
  function Chain(w: SizeT, h: SizeT): (r: seq<(SizeT, SizeT)>)
    ensures |r| >= 1 && r[0] == (w, h)
    decreases w + h
  {
    if w > MinimumSize || h > MinimumSize then [(w, h)] + Chain(Halve(w), Halve(h)) else [(w, h)]
  }

  /** The raw dimensions of the levels the constructor creates. */
  function Levels(w: SizeT, h: SizeT, mipmaps: bool): (r: seq<(SizeT, SizeT)>)
    ensures |r| >= 1 && r[0] == (w, h)
    ensures !mipmaps ==> |r| == 1
  {
    if mipmaps then Chain(w, h) else [(w, h)]
  }

  /** floor(log2(n)) */
  function Log2(n: nat): nat
    requires n >= 1
  {
    if n == 1 then 0 else 1 + Log2(n / 2)
  }

  /** Each level halves every dimension of the previous one that is above the minimum, and
    * the chain ends at the first level whose dimensions are both at most the minimum. */
  lemma {:induction false} ChainHalves(w: SizeT, h: SizeT, i: nat)
    requires i < |Chain(w, h)|
    ensures var c := Chain(w, h);
      i + 1 < |c| <==> (c[i].0 > MinimumSize || c[i].1 > MinimumSize)
    ensures var c := Chain(w, h);
      i + 1 < |c| ==> c[i + 1] == (Halve(c[i].0), Halve(c[i].1))
    decreases w + h
  {
    if i > 0 {
      ChainHalves(Halve(w), Halve(h), i - 1);
    }
  }

  /** For non-empty images there are 1 + floor(log2(max(w, h))) levels. */
  lemma {:induction false} ChainLength(w: SizeT, h: SizeT)
    requires w >= 1 && h >= 1
    ensures |Chain(w, h)| == 1 + Log2(Max(w, h))
    decreases w + h
  {
    if w > MinimumSize || h > MinimumSize {
      ChainLength(Halve(w), Halve(h));
      assert Max(Halve(w), Halve(h)) == Max(w, h) / 2;
    }
  }

  /** Where level i starts in the shared buffer: after the bytes of every earlier level. */
  function Offset(images: seq<Image>, i: nat): (r: nat)
    requires i <= |images|
  {
    if i == 0 then 0 else Offset(images, i - 1) + images[i - 1].ByteCount()
  }

  /** Appending a level leaves the offsets of the earlier levels alone. */
  lemma {:induction false} OffsetAppend(images: seq<Image>, img: Image, i: nat)
    requires i <= |images|
    ensures Offset(images + [img], i) == Offset(images, i)
  {
    if i > 0 {
      OffsetAppend(images, img, i - 1);
    }
  }

  /** Offsets depend only on the levels' dimensions. */
  lemma {:induction false} OffsetSameSizes(a: seq<Image>, b: seq<Image>, i: nat)
    requires i <= |a| && i <= |b|
    requires forall k :: 0 <= k < i ==> a[k].width == b[k].width && a[k].height == b[k].height
    ensures Offset(a, i) == Offset(b, i)
  {
    if i > 0 {
      OffsetSameSizes(a, b, i - 1);
    }
  }

  /** The levels' spans follow each other in level order without gaps or overlap. */
  lemma {:induction false} OffsetsOrdered(images: seq<Image>, i: nat, j: nat)
    requires i < j <= |images|
    ensures Offset(images, i) + images[i].ByteCount() <= Offset(images, j)
    decreases j
  {
    if j > i + 1 {
      OffsetsOrdered(images, i, j - 1);
    }
  }

  /** A total of zero bytes means every level is empty and starts at 0. */
  lemma {:induction false} EmptyOffsets(images: seq<Image>, i: nat)
    requires i <= |images| && Offset(images, |images|) == 0
    ensures Offset(images, i) == 0 && (i < |images| ==> images[i].ByteCount() == 0)
  {
    if i < |images| {
      OffsetsOrdered(images, i, |images|);
    }
  }

  /** No image appears twice among the levels. */
  predicate Distinct(levels: seq<Image>)
  {
    forall i, j :: 0 <= i < |levels| && 0 <= j < |levels| && i != j ==> levels[i] != levels[j]
  }

  /** Each level has the padded dimensions of the corresponding raw dimensions. */
  predicate PaddedAs(levels: seq<Image>, dims: seq<(SizeT, SizeT)>)
  {
    && |levels| == |dims|
    && forall i :: 0 <= i < |levels| ==>
         levels[i].width == NextDivisibleBy4(dims[i].0) && levels[i].height == NextDivisibleBy4(dims[i].1)
  }

  /** Appending a new image with the padded dimensions of the next raw level. */
  lemma AppendLevel(levels: seq<Image>, dims: seq<(SizeT, SizeT)>, next: Image, d: (SizeT, SizeT))
    requires PaddedAs(levels, dims) && Distinct(levels) && next !in levels
    requires next.width == NextDivisibleBy4(d.0) && next.height == NextDivisibleBy4(d.1)
    ensures PaddedAs(levels + [next], dims + [d]) && Distinct(levels + [next])
  {
  }

  class MipmapImage {
    const fileIndex: SizeT
    var data: array<Byte>
    var images: seq<Image>

    /** The levels are distinct images with padded dimensions whose spans tile the buffer in
      * level order. */
    ghost predicate Valid()
      reads this, images
    {
      && Distinct(images)
      && (forall i :: 0 <= i < |images| ==> images[i].width % 4 == 0 && images[i].height % 4 == 0)
      && (forall i :: 0 <= i < |images| ==> images[i].data == Span(Offset(images, i), images[i].ByteCount()))
      && data.Length == Offset(images, |images|)
    }

    /** mipmap_image(file_index, width, height, mipmaps) */
    constructor(fileIndex: SizeT, width: SizeT, height: SizeT, mipmaps: bool)
      ensures Valid() && this.fileIndex == fileIndex
      ensures PaddedAs(images, Levels(width, height, mipmaps))
      ensures forall k :: 0 <= k < data.Length ==> data[k] == 0
      ensures fresh(data) && forall i :: 0 <= i < |images| ==> fresh(images[i])
    {
      this.fileIndex := fileIndex;
      var levels := NewLevels(width, height, mipmaps);
      var bytesRequired := Offset(levels, |levels|);
      if bytesRequired == 0 {
        forall i | 0 <= i < |levels| ensures levels[i].data == Span(Offset(levels, i), levels[i].ByteCount()) {
          EmptyOffsets(levels, i);
        }
        data := new Byte[0];
      } else {
        data := new Byte[bytesRequired](_ => 0);
        SetSpans(levels);
      }
      images := levels;
    }

    /** The images of the levels, before any of them is given its span: the first has the
      * requested dimensions, and with mipmaps each next one halves them. */
    static method NewLevels(width: SizeT, height: SizeT, mipmaps: bool) returns (levels: seq<Image>)
      ensures PaddedAs(levels, Levels(width, height, mipmaps)) && Distinct(levels)
      ensures forall i :: 0 <= i < |levels| ==> fresh(levels[i]) && levels[i].data == Span(0, 0)
    {
      var w: SizeT, h: SizeT := width, height;
      var first := new Image(w, h);
      levels := [first];
      ghost var before: seq<(SizeT, SizeT)> := [];
      if mipmaps {
        while w > MinimumSize || h > MinimumSize
          invariant Chain(width, height) == before + Chain(w, h)
          invariant PaddedAs(levels, before + [(w, h)]) && Distinct(levels)
          invariant forall i :: 0 <= i < |levels| ==> fresh(levels[i]) && levels[i].data == Span(0, 0)
          decreases w + h
        {
          assert Chain(w, h) == [(w, h)] + Chain(Halve(w), Halve(h));
          AppendAssociative(before, [(w, h)], Chain(Halve(w), Halve(h)));
          before := before + [(w, h)];
          if w > MinimumSize { w := w / 2; }
          if h > MinimumSize { h := h / 2; }
          var next := new Image(w, h);
          AppendLevel(levels, before, next, (w, h));
          levels := levels + [next];
        }
      }
      assert Levels(width, height, mipmaps) == before + [(w, h)];
    }

    /** The loop assigning each level the next span of the buffer. */
    static method SetSpans(levels: seq<Image>)
      requires Distinct(levels)
      modifies set img | img in levels
      ensures forall i :: 0 <= i < |levels| ==> levels[i].data == Span(Offset(levels, i), levels[i].ByteCount())
    {
      var memoryStart := 0;
      var k := 0;
      while k < |levels|
        invariant k <= |levels| && memoryStart == Offset(levels, k)
        invariant forall i :: 0 <= i < k ==> levels[i].data == Span(Offset(levels, i), levels[i].ByteCount())
      {
        var current := levels[k];
        var required := current.ByteCount();
        current.SetData(Span(memoryStart, required));
        memoryStart := memoryStart + required;
        k := k + 1;
      }
    }

    /** The copy constructor: the same file index and level dimensions, and a fresh buffer of
      * the same size laid out the same way; the source bytes are not copied. */
    constructor Copy(other: MipmapImage)
      requires other.Valid()
      ensures Valid() && fileIndex == other.fileIndex
      ensures |images| == |other.images| && data.Length == other.data.Length
      ensures forall i :: 0 <= i < |images| ==>
        images[i].width == other.images[i].width && images[i].height == other.images[i].height
        && images[i].data == other.images[i].data
      ensures forall k :: 0 <= k < data.Length ==> data[k] == 0
      ensures fresh(data) && forall i :: 0 <= i < |images| ==> fresh(images[i])
    {
      fileIndex := other.fileIndex;
      data := new Byte[other.data.Length](_ => 0);
      var levels := CopyLevels(other.images);
      forall i | 0 <= i <= |levels| ensures Offset(levels, i) == Offset(other.images, i) {
        OffsetSameSizes(levels, other.images, i);
      }
      images := levels;
    }

    /** The loop of the copy constructor: a new image with the dimensions of each source level,
      * given the next span of the buffer. */
    static method CopyLevels(source: seq<Image>) returns (levels: seq<Image>)
      requires forall i :: 0 <= i < |source| ==> source[i].width % 4 == 0 && source[i].height % 4 == 0
      ensures |levels| == |source| && Distinct(levels)
      ensures forall i :: 0 <= i < |levels| ==>
        levels[i].width == source[i].width && levels[i].height == source[i].height
      ensures forall i :: 0 <= i < |levels| ==>
        fresh(levels[i]) && levels[i].data == Span(Offset(source, i), levels[i].ByteCount())
    {
      levels := [];
      var memoryStart := 0;
      for k := 0 to |source|
        invariant |levels| == k && memoryStart == Offset(source, k)
        invariant forall i :: 0 <= i < k ==>
          levels[i].width == source[i].width && levels[i].height == source[i].height
        invariant Distinct(levels)
        invariant forall i :: 0 <= i < k ==>
          fresh(levels[i]) && levels[i].data == Span(Offset(source, i), levels[i].ByteCount())
      {
        var original := source[k];
        var current := new Image(original.width, original.height);
        var required := current.ByteCount();
        current.SetData(Span(memoryStart, required));
        levels := levels + [current];
        memoryStart := memoryStart + required;
      }
    }

    /** mipmap_count */
    function MipmapCount(): (r: nat)
      reads this
      ensures r == |images|
    {
      |images|
    }

    /** data_size: the bytes of every level together. */
    function DataSize(): (r: nat)
      reads this, images
      requires Valid()
      ensures r == Offset(images, |images|)
    {
      data.Length
    }
  }

  /** A buffer with no bytes leaves every level empty. */
  lemma NoPixels(m: MipmapImage, i: nat)
    requires m.Valid() && m.data.Length == 0 && i < |m.images|
    ensures m.images[i].data == Span(0, 0)
  {
    EmptyOffsets(m.images, i);
  }

  /** The spans of two levels are disjoint, in level order. */
  lemma SpansDisjoint(m: MipmapImage, i: nat, j: nat)
    requires m.Valid() && i < j < |m.images|
    ensures m.images[i].data.start + m.images[i].data.size <= m.images[j].data.start
    ensures m.images[j].data.start + m.images[j].data.size <= m.data.Length
  {
    OffsetsOrdered(m.images, i, j);
    OffsetsOrdered(m.images, j, |m.images|);
  }
}
