/**
 * Border padding (add_padding in filter_decode_png.cpp, and the same two loops at the end of
 * png.cpp's decode): every padding pixel receives a copy of the nearest real pixel of the
 * last real column or row.
 */
module Padding {
  import opened Util
  import opened PixelGrid

  /** The real coordinate a padded coordinate copies: itself inside the image, otherwise the
    * last real one (std::min(c, size - 1)). */
  function Border(c: nat, size: nat): (r: nat)
    ensures size > 0 ==> r < size
    ensures c < size ==> r == c
    ensures size > 0 && c >= size ==> r == size - 1
    ensures r <= c
  {
    if c < size then c else if size > 0 then size - 1 else 0
  }

  /** The whole owner's buffer after padding a level: each byte of the level takes the
    * same channel of its source pixel, and bytes outside the level are kept. */
  function Padded(s: seq<Byte>, l: Level): (r: seq<Byte>)
    requires l.Valid() && l.End() <= |s|
    ensures |r| == |s|
    ensures forall i :: 0 <= i < |s| && !(l.start <= i < l.End()) ==> r[i] == s[i]
  {
    seq(|s|, i requires 0 <= i < |s| =>
      if l.start <= i < l.End() then s[SourceByte(l, i)] else s[i])
  }

  /** The byte a byte of the level is copied from. */
  function SourceByte(l: Level, i: nat): (r: nat)
    requires l.Valid() && l.start <= i < l.End()
    ensures l.start <= r < l.End()
  {
    var x, y := Border(l.Column(i), l.width), Border(l.Row(i), l.height);
    assert x < l.paddedWidth && y < l.paddedHeight;
    l.Index(x, y, l.Channel(i))
  }

  /** The padding relation pixel by pixel: channel k of pixel (x, y) of `after` is channel k
    * of its source pixel in `before`. */
  ghost predicate PaddedPixels(before: seq<Byte>, after: seq<Byte>, l: Level)
    requires l.Valid() && l.End() <= |before|
  {
    && |after| == |before|
    && (forall i :: 0 <= i < |before| && !(l.start <= i < l.End()) ==> after[i] == before[i])
    && forall x: nat, y: nat, k: nat {:trigger after[l.Index(x, y, k)]}
         | x < l.paddedWidth && y < l.paddedHeight && k < PixelBytes ::
         after[l.Index(x, y, k)] == before[l.Index(Border(x, l.width), Border(y, l.height), k)]
  }

  /** Channel k of pixel (x, y) after padding is channel k of its source pixel. */
  lemma PaddedPixel(s: seq<Byte>, l: Level, x: nat, y: nat, k: nat)
    requires l.Valid() && l.End() <= |s|
    requires x < l.paddedWidth && y < l.paddedHeight && k < PixelBytes
    ensures Padded(s, l)[l.Index(x, y, k)] == s[l.Index(Border(x, l.width), Border(y, l.height), k)]
  {
    Decompose(l, x, y, k);
  }

  /** Padded satisfies the pixel relation, and it is the only buffer that does. */
  lemma PaddedUnique(before: seq<Byte>, after: seq<Byte>, l: Level)
    requires l.Valid() && l.End() <= |before|
    ensures PaddedPixels(before, Padded(before, l), l)
    ensures PaddedPixels(before, after, l) ==> after == Padded(before, l)
  {
    forall x: nat, y: nat, k: nat | x < l.paddedWidth && y < l.paddedHeight && k < PixelBytes
      ensures Padded(before, l)[l.Index(x, y, k)] == before[l.Index(Border(x, l.width), Border(y, l.height), k)]
    {
      PaddedPixel(before, l, x, y, k);
    }
    if PaddedPixels(before, after, l) {
      forall i | 0 <= i < |before| ensures after[i] == Padded(before, l)[i] {
        if l.start <= i < l.End() {
          Compose(l, i);
          assert after[i] == after[l.Index(l.Column(i), l.Row(i), l.Channel(i))];
        }
      }
    }
  }

  /** The four cases of padding: real pixels are kept; a padding column copies the last real
    * pixel of its row, a padding row the last real pixel of its column, and the padding
    * corner the last real pixel of the image. */
  lemma PaddingCases(s: seq<Byte>, l: Level, x: nat, y: nat, k: nat)
    requires l.Valid() && l.End() <= |s|
    requires x < l.paddedWidth && y < l.paddedHeight && k < PixelBytes
    ensures var r := Padded(s, l); var p := l.Index(x, y, k);
      && (x < l.width && y < l.height ==> r[p] == s[p])
      && (x >= l.width && y < l.height ==> r[p] == s[l.Index(l.width - 1, y, k)])
      && (x < l.width && y >= l.height ==> r[p] == s[l.Index(x, l.height - 1, k)])
      && (x >= l.width && y >= l.height ==> r[p] == s[l.Index(l.width - 1, l.height - 1, k)])
  {
    PaddedPixel(s, l, x, y, k);
  }

  /** A level without padding is left as it is. */
  lemma PaddedNoPadding(s: seq<Byte>, l: Level)
    requires l.Valid() && l.End() <= |s|
    requires l.width == l.paddedWidth && l.height == l.paddedHeight
    ensures Padded(s, l) == s
  {
    forall i | 0 <= i < |s| ensures Padded(s, l)[i] == s[i] {
      if l.start <= i < l.End() {
        Compose(l, i);
      }
    }
  }

  /** Padding twice is padding once: source pixels are real, and they are kept. */
  lemma PaddedIdempotent(s: seq<Byte>, l: Level)
    requires l.Valid() && l.End() <= |s|
    ensures Padded(Padded(s, l), l) == Padded(s, l)
  {
    var once := Padded(s, l);
    forall i | 0 <= i < |s| ensures Padded(once, l)[i] == once[i] {
      if l.start <= i < l.End() {
        var x, y, k := l.Column(i), l.Row(i), l.Channel(i);
        Compose(l, i);
        var sx, sy := Border(x, l.width), Border(y, l.height);
        PaddedPixel(once, l, x, y, k);
        PaddedPixel(s, l, sx, sy, k);
        PaddedPixel(s, l, x, y, k);
      }
    }
  }

  /** std::copy of the 4 bytes of pixel (fromX, fromY) onto pixel (toX, toY). */
  method CopyPixel(a: array<Byte>, l: Level, fromX: nat, fromY: nat, toX: nat, toY: nat)
    requires l.End() <= a.Length
    requires fromX < l.paddedWidth && fromY < l.paddedHeight && toX < l.paddedWidth && toY < l.paddedHeight
    requires (fromX, fromY) != (toX, toY)
    modifies a
    ensures forall k :: 0 <= k < PixelBytes ==> a[l.Index(toX, toY, k)] == old(a[l.Index(fromX, fromY, k)])
    ensures forall i :: 0 <= i < a.Length && !(l.At(toX, toY) <= i < l.At(toX, toY) + PixelBytes) ==> a[i] == old(a[i])
  {
    Disjoint(l, fromX, fromY, toX, toY);
    for k := 0 to PixelBytes
      invariant forall j :: 0 <= j < k ==> a[l.Index(toX, toY, j)] == old(a[l.Index(fromX, fromY, j)])
      invariant forall i :: 0 <= i < a.Length && !(l.At(toX, toY) <= i < l.At(toX, toY) + k) ==> a[i] == old(a[i])
    {
      a[l.Index(toX, toY, k)] := a[l.Index(fromX, fromY, k)];
    }
  }

  /** The columns right of the real image copy the last real pixel of their row, or, in the
    * padding rows, the last real pixel of the image. */
  ghost predicate ColumnsPadded(before: seq<Byte>, after: seq<Byte>, l: Level, rows: nat, columns: nat)
    requires l.Valid() && l.End() <= |before|
  {
    && |after| == |before|
    && (forall i :: 0 <= i < |before| && !(l.start <= i < l.End()) ==> after[i] == before[i])
    && forall x: nat, y: nat, k: nat {:trigger after[l.Index(x, y, k)]}
         | x < l.paddedWidth && y < l.paddedHeight && k < PixelBytes ::
         after[l.Index(x, y, k)] ==
           if x >= l.width && (y < rows || (y == rows && x < columns))
           then before[l.Index(l.width - 1, Border(y, l.height), k)]
           else before[l.Index(x, y, k)]
  }

  /** The rows below the real image copy the last real pixel of their column, or, in the
    * padding columns, the last real pixel of the image. */
  ghost predicate RowsPadded(before: seq<Byte>, after: seq<Byte>, l: Level, columns: nat, rows: nat)
    requires l.Valid() && l.End() <= |before|
  {
    && |after| == |before|
    && (forall i :: 0 <= i < |before| && !(l.start <= i < l.End()) ==> after[i] == before[i])
    && forall x: nat, y: nat, k: nat {:trigger after[l.Index(x, y, k)]}
         | x < l.paddedWidth && y < l.paddedHeight && k < PixelBytes ::
         after[l.Index(x, y, k)] ==
           if y >= l.height && (x < columns || (x == columns && y < rows))
           then before[l.Index(Border(x, l.width), l.height - 1, k)]
           else before[l.Index(x, y, k)]
  }

  /** Copying the border pixel of row y onto padding pixel (x, y) extends the padded
    * columns by that pixel. */
  lemma ColumnStep(before: seq<Byte>, prior: seq<Byte>, a: seq<Byte>, l: Level, x: nat, y: nat)
    requires l.Valid() && l.End() <= |before| && l.width <= x < l.paddedWidth && y < l.paddedHeight
    requires ColumnsPadded(before, prior, l, y, x) && |a| == |prior|
    requires forall k :: 0 <= k < PixelBytes ==> a[l.Index(x, y, k)] == prior[l.Index(l.width - 1, Border(y, l.height), k)]
    requires forall i :: 0 <= i < |a| && !(l.At(x, y) <= i < l.At(x, y) + PixelBytes) ==> a[i] == prior[i]
    ensures ColumnsPadded(before, a, l, y, x + 1)
  {
    OtherPixelsKept(prior, a, l, x, y);
    forall k | 0 <= k < PixelBytes
      ensures a[l.Index(x, y, k)] == before[l.Index(l.width - 1, Border(y, l.height), k)]
    {
      assert prior[l.Index(l.width - 1, Border(y, l.height), k)] == before[l.Index(l.width - 1, Border(y, l.height), k)];
    }
  }

  /** The first loop of add_padding: for every row, the padding columns receive the border
    * pixel of that row. */
  method PadColumns(a: array<Byte>, l: Level)
    requires l.Valid() && l.End() <= a.Length && l.width < l.paddedWidth
    modifies a
    ensures ColumnsPadded(old(a[..]), a[..], l, l.paddedHeight, 0)
  {
    ghost var before := a[..];
    var borderX := l.width - 1;
    for y := 0 to l.paddedHeight
      invariant ColumnsPadded(before, a[..], l, y, 0)
    {
      var borderY := Border(y, l.height);
      for x := l.width to l.paddedWidth
        invariant ColumnsPadded(before, a[..], l, y, x)
      {
        ghost var prior := a[..];
        CopyPixel(a, l, borderX, borderY, x, y);
        ColumnStep(before, prior, a[..], l, x, y);
      }
    }
  }

  /** Copying the border pixel of column x onto padding pixel (x, y) extends the padded
    * rows by that pixel. */
  lemma RowStep(before: seq<Byte>, prior: seq<Byte>, a: seq<Byte>, l: Level, x: nat, y: nat)
    requires l.Valid() && l.End() <= |before| && x < l.paddedWidth && l.height <= y < l.paddedHeight
    requires RowsPadded(before, prior, l, x, y) && |a| == |prior|
    requires forall k :: 0 <= k < PixelBytes ==> a[l.Index(x, y, k)] == prior[l.Index(Border(x, l.width), l.height - 1, k)]
    requires forall i :: 0 <= i < |a| && !(l.At(x, y) <= i < l.At(x, y) + PixelBytes) ==> a[i] == prior[i]
    ensures RowsPadded(before, a, l, x, y + 1)
  {
    OtherPixelsKept(prior, a, l, x, y);
    forall k | 0 <= k < PixelBytes
      ensures a[l.Index(x, y, k)] == before[l.Index(Border(x, l.width), l.height - 1, k)]
    {
      assert prior[l.Index(Border(x, l.width), l.height - 1, k)] == before[l.Index(Border(x, l.width), l.height - 1, k)];
    }
  }

  /** The second loop of add_padding: for every column, the padding rows receive the border
    * pixel of that column. */
  method PadRows(a: array<Byte>, l: Level)
    requires l.Valid() && l.End() <= a.Length && l.height < l.paddedHeight
    modifies a
    ensures RowsPadded(old(a[..]), a[..], l, l.paddedWidth, 0)
  {
    ghost var before := a[..];
    var borderY := l.height - 1;
    for x := 0 to l.paddedWidth
      invariant RowsPadded(before, a[..], l, x, 0)
    {
      var borderX := Border(x, l.width);
      for y := l.height to l.paddedHeight
        invariant RowsPadded(before, a[..], l, x, y)
      {
        ghost var prior := a[..];
        CopyPixel(a, l, borderX, borderY, x, y);
        RowStep(before, prior, a[..], l, x, y);
      }
    }
  }

  /** add_padding: the level becomes its padded self, and nothing else changes. */
  method AddPadding(a: array<Byte>, l: Level)
    requires l.Valid() && l.End() <= a.Length
    modifies a
    ensures a[..] == Padded(old(a[..]), l)
  {
    ghost var before := a[..];
    if l.width < l.paddedWidth {
      PadColumns(a, l);
    }
    assert ColumnsPadded(before, a[..], l, l.paddedHeight, 0);
    ghost var middle := a[..];
    if l.height < l.paddedHeight {
      PadRows(a, l);
    }
    assert RowsPadded(middle, a[..], l, l.paddedWidth, 0);
    forall x: nat, y: nat, k: nat | x < l.paddedWidth && y < l.paddedHeight && k < PixelBytes
      ensures a[l.Index(x, y, k)] == before[l.Index(Border(x, l.width), Border(y, l.height), k)]
    {
      if y >= l.height {
        assert middle[l.Index(Border(x, l.width), l.height - 1, k)] ==
          before[l.Index(Border(x, l.width), l.height - 1, k)];
      }
    }
    PaddedUnique(before, a[..], l);
  }
}
