/**
 * One RGBA level as the decoding stage sees it: a grid of paddedWidth x paddedHeight
 * pixels stored row by row from byte `start` of the owner's buffer, of which the top-left
 * width x height pixels are the real image and the rest is padding.
 */
module PixelGrid {
  import opened Arithmetic

  const PixelBytes: nat := 4

  datatype Level = Level(start: nat, width: nat, height: nat, paddedWidth: nat, paddedHeight: nat)
  {
    /** The real image fits in the padded grid, and padding is only added next to a real
      * pixel it can copy. */
    predicate Valid()
    {
      && width <= paddedWidth && height <= paddedHeight
      && (width < paddedWidth ==> width > 0)
      && (height < paddedHeight ==> height > 0)
    }

    function PixelCount(): (r: nat)
    {
      paddedWidth * paddedHeight
    }

    /** One past the last byte of the level. */
    function End(): (r: nat)
      ensures r >= start
    {
      start + PixelBytes * PixelCount()
    }

    /** The first byte of pixel (x, y), which for a pixel of the grid lies inside the level
      * together with the whole pixel. */
    function At(x: nat, y: nat): (r: nat)
      ensures x < paddedWidth && y < paddedHeight ==> start <= r && r + PixelBytes <= End()
    {
      assert x < paddedWidth && y < paddedHeight ==> x + y * paddedWidth < PixelCount() by {
        if x < paddedWidth && y < paddedHeight {
          RowMajorBounded(x, y, paddedWidth, paddedHeight);
        }
      }
      start + PixelBytes * (x + y * paddedWidth)
    }

    /** The byte of channel k of pixel (x, y). */
    function Index(x: nat, y: nat, k: nat): (r: nat)
      ensures x < paddedWidth && y < paddedHeight && k < PixelBytes ==> start <= r < End()
    {
      At(x, y) + k
    }

    /** The column of the pixel a byte of the level belongs to. */
    function Column(i: nat): (r: nat)
      requires start <= i < End()
      ensures r < paddedWidth
    {
      (i - start) / PixelBytes % paddedWidth
    }

    /** The row of the pixel a byte of the level belongs to. */
    function Row(i: nat): (r: nat)
      requires start <= i < End()
      ensures r < paddedHeight
    {
      var n := (i - start) / PixelBytes;
      assert n < paddedWidth * paddedHeight;
      QuotientBounded(n, paddedWidth, paddedHeight);
      n / paddedWidth
    }

    /** The channel (0 red, 1 green, 2 blue, 3 alpha) a byte of the level holds. */
    function Channel(i: nat): (r: nat)
      requires start <= i < End()
      ensures r < PixelBytes
    {
      (i - start) % PixelBytes
    }
  }

  /** Every byte of a level is one channel of one pixel of its grid. */
  lemma Compose(l: Level, i: nat)
    requires l.start <= i < l.End()
    ensures i == l.Index(l.Column(i), l.Row(i), l.Channel(i))
  {
    var n := (i - l.start) / PixelBytes;
    assert i - l.start == PixelBytes * n + l.Channel(i);
    assert n == l.Column(i) + l.Row(i) * l.paddedWidth;
  }

  /** The byte of channel k of pixel (x, y) is found again as that pixel and channel. */
  lemma Decompose(l: Level, x: nat, y: nat, k: nat)
    requires x < l.paddedWidth && y < l.paddedHeight && k < PixelBytes
    ensures l.Column(l.Index(x, y, k)) == x && l.Row(l.Index(x, y, k)) == y && l.Channel(l.Index(x, y, k)) == k
  {
    var i := l.Index(x, y, k);
    var n := x + y * l.paddedWidth;
    DivModUnique(i - l.start, PixelBytes, n, k);
    DivModUnique(n, l.paddedWidth, y, x);
  }

  /** Two different pixels of a grid do not share a byte. */
  lemma Disjoint(l: Level, x1: nat, y1: nat, x2: nat, y2: nat)
    requires x1 < l.paddedWidth && x2 < l.paddedWidth && (x1, y1) != (x2, y2)
    ensures l.At(x1, y1) + PixelBytes <= l.At(x2, y2) || l.At(x2, y2) + PixelBytes <= l.At(x1, y1)
  {
    if x1 + y1 * l.paddedWidth == x2 + y2 * l.paddedWidth {
      DivModUnique(x1 + y1 * l.paddedWidth, l.paddedWidth, y1, x1);
      DivModUnique(x2 + y2 * l.paddedWidth, l.paddedWidth, y2, x2);
    }
  }

  /** Two buffers that agree outside a level and on every channel of every pixel of it are
    * equal. */
  lemma LevelEquality<T>(t: seq<T>, u: seq<T>, l: Level)
    requires |t| == |u| && l.End() <= |t|
    requires forall i :: 0 <= i < |t| && !(l.start <= i < l.End()) ==> t[i] == u[i]
    requires forall x: nat, y: nat, k: nat {:trigger t[l.Index(x, y, k)]}
      | x < l.paddedWidth && y < l.paddedHeight && k < PixelBytes :: t[l.Index(x, y, k)] == u[l.Index(x, y, k)]
    ensures t == u
  {
    forall i | 0 <= i < |t| ensures t[i] == u[i] {
      if l.start <= i < l.End() {
        Compose(l, i);
        assert t[l.Index(l.Column(i), l.Row(i), l.Channel(i))] == u[l.Index(l.Column(i), l.Row(i), l.Channel(i))];
      }
    }
  }

  /** Writing the one pixel (x, y) of a level keeps every other pixel and every byte outside. */
  lemma OtherPixelsKept<T>(prior: seq<T>, a: seq<T>, l: Level, x: nat, y: nat)
    requires l.End() <= |prior| == |a| && x < l.paddedWidth && y < l.paddedHeight
    requires forall i :: 0 <= i < |a| && !(l.At(x, y) <= i < l.At(x, y) + PixelBytes) ==> a[i] == prior[i]
    ensures forall i :: 0 <= i < |a| && !(l.start <= i < l.End()) ==> a[i] == prior[i]
    ensures forall x': nat, y': nat, k: nat | x' < l.paddedWidth && y' < l.paddedHeight && k < PixelBytes &&
      (x', y') != (x, y) :: a[l.Index(x', y', k)] == prior[l.Index(x', y', k)]
  {
    forall x': nat, y': nat, k: nat | x' < l.paddedWidth && y' < l.paddedHeight && k < PixelBytes && (x', y') != (x, y)
      ensures a[l.Index(x', y', k)] == prior[l.Index(x', y', k)]
    {
      Disjoint(l, x', y', x, y);
    }
  }
}
