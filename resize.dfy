/**
 * box_downscale (resize.cpp): a level of the mipmap chain computed from the previous one,
 * which has twice its dimensions. As written, the loop never advances its pointers, so
 * only the first byte of each destination row is written; the corrected operation gives
 * each channel of each destination pixel the mean of that channel over the 2x2 source
 * pixels it covers.
 */
module Resize {
  import opened Util
  import opened PixelGrid

  /** The mean of four bytes, rounded down (the division of their sum by 4); it fits in a
    * byte again, so the narrowing cast to std::uint8_t keeps it. */
  function Average(p: Byte, q: Byte, r: Byte, t: Byte): (avg: Byte)
    ensures 4 * avg <= p + q + r + t < 4 * avg + 4
    ensures Min(Min(p, q), Min(r, t)) <= avg <= Max(Max(p, q), Max(r, t))
  {
    (p + q + r + t) / 4
  }

  /** What the loops of box_downscale rely on: both levels lie inside the buffer without
    * overlapping, and the 2x2 source pixels under every real destination pixel lie in the
    * source grid. */
  predicate Downscalable(src: Level, dst: Level, length: nat)
  {
    && src.Valid() && dst.Valid()
    && src.End() <= length && dst.End() <= length
    && (src.End() <= dst.start || dst.End() <= src.start)
    && 2 * dst.width <= src.paddedWidth && 2 * dst.height <= src.paddedHeight
  }

  /** What box_downscale asserts: the destination's dimensions are the source's shifted
    * right by one. The image class whose row_start the loop uses reports the padded
    * dimensions as width() and height(), so the assert compares padded grids. */
  predicate HalvesAsAsserted(src: Level, dst: Level)
  {
    src.paddedWidth / 2 == dst.paddedWidth && src.paddedHeight / 2 == dst.paddedHeight
  }

  /** The assert keeps every 2x2 source block of the padded destination grid, and so of its
    * real pixels, inside the source grid. */
  lemma AssertedHalvesFit(src: Level, dst: Level)
    requires dst.Valid() && HalvesAsAsserted(src, dst)
    ensures 2 * dst.paddedWidth <= src.paddedWidth && 2 * dst.paddedHeight <= src.paddedHeight
    ensures 2 * dst.width <= src.paddedWidth && 2 * dst.height <= src.paddedHeight
  {
  }

  /** Channel c of the mean of the 2x2 source pixels under destination pixel (x, y). */
  function SourceAverage(s: seq<Byte>, src: Level, x: nat, y: nat, c: nat): (r: Byte)
    requires 2 * x + 1 < src.paddedWidth && 2 * y + 1 < src.paddedHeight && c < PixelBytes && src.End() <= |s|
  {
    Average(s[src.Index(2 * x, 2 * y, c)], s[src.Index(2 * x + 1, 2 * y, c)],
            s[src.Index(2 * x, 2 * y + 1, c)], s[src.Index(2 * x + 1, 2 * y + 1, c)])
  }

  /** The buffer after the corrected downscale: every channel of every real destination
    * pixel is the mean of its source pixels, and every other byte is kept. */
  function Downscaled(s: seq<Byte>, src: Level, dst: Level): (r: seq<Byte>)
    requires Downscalable(src, dst, |s|)
    ensures |r| == |s|
    ensures forall i :: 0 <= i < |s| && !(dst.start <= i < dst.End()) ==> r[i] == s[i]
  {
    seq(|s|, i requires 0 <= i < |s| =>
      if dst.start <= i < dst.End() && dst.Column(i) < dst.width && dst.Row(i) < dst.height
      then SourceAverage(s, src, dst.Column(i), dst.Row(i), dst.Channel(i))
      else s[i])
  }

  /** Channel c of destination pixel (x, y) after the corrected downscale. */
  lemma DownscaledPixel(s: seq<Byte>, src: Level, dst: Level, x: nat, y: nat, c: nat)
    requires Downscalable(src, dst, |s|)
    requires x < dst.paddedWidth && y < dst.paddedHeight && c < PixelBytes
    ensures x < dst.width && y < dst.height ==>
      Downscaled(s, src, dst)[dst.Index(x, y, c)] == SourceAverage(s, src, x, y, c)
    ensures !(x < dst.width && y < dst.height) ==>
      Downscaled(s, src, dst)[dst.Index(x, y, c)] == s[dst.Index(x, y, c)]
  {
    Decompose(dst, x, y, c);
  }

  /** box_downscale leaves the source level as it was. */
  lemma DownscaledKeepsSource(s: seq<Byte>, src: Level, dst: Level, i: nat)
    requires Downscalable(src, dst, |s|) && src.start <= i < src.End()
    ensures Downscaled(s, src, dst)[i] == s[i]
  {
  }

  /** A source level whose pixels all have the same channel values gives a destination of
    * those values. */
  lemma DownscaledUniform(s: seq<Byte>, src: Level, dst: Level, color: seq<Byte>, x: nat, y: nat, c: nat)
    requires Downscalable(src, dst, |s|) && |color| == PixelBytes
    requires forall x': nat, y': nat, c': nat | x' < src.paddedWidth && y' < src.paddedHeight && c' < PixelBytes ::
      s[src.Index(x', y', c')] == color[c']
    requires x < dst.width && y < dst.height && c < PixelBytes
    ensures Downscaled(s, src, dst)[dst.Index(x, y, c)] == color[c]
  {
    DownscaledPixel(s, src, dst, x, y, c);
    assert s[src.Index(2 * x + 1, 2 * y + 1, c)] == color[c];
  }

  /** The destination pixels finished so far: whole rows above `rows`, and the pixels left
    * of `columns` in row `rows`. */
  ghost predicate DownscaledUpTo(before: seq<Byte>, after: seq<Byte>, src: Level, dst: Level, rows: nat, columns: nat)
    requires Downscalable(src, dst, |before|)
  {
    && |after| == |before|
    && (forall i :: 0 <= i < |before| && !(dst.start <= i < dst.End()) ==> after[i] == before[i])
    && forall x: nat, y: nat, c: nat {:trigger after[dst.Index(x, y, c)]}
         | x < dst.paddedWidth && y < dst.paddedHeight && c < PixelBytes ::
         after[dst.Index(x, y, c)] ==
           if x < dst.width && y < dst.height && (y < rows || (y == rows && x < columns))
           then SourceAverage(before, src, x, y, c)
           else before[dst.Index(x, y, c)]
  }

  /** The four channels of destination pixel (x, y) receive their means. */
  method AveragePixel(a: array<Byte>, src: Level, dst: Level, x: nat, y: nat)
    requires Downscalable(src, dst, a.Length) && x < dst.width && y < dst.height
    modifies a
    ensures forall c :: 0 <= c < PixelBytes ==> a[dst.Index(x, y, c)] == SourceAverage(old(a[..]), src, x, y, c)
    ensures forall i :: 0 <= i < a.Length && !(dst.At(x, y) <= i < dst.At(x, y) + PixelBytes) ==> a[i] == old(a[i])
  {
    ghost var before := a[..];
    assert 2 * x + 1 < src.paddedWidth && 2 * y + 1 < src.paddedHeight;
    var red := ChannelAverage(a, src, x, y, 0);
    var green := ChannelAverage(a, src, x, y, 1);
    var blue := ChannelAverage(a, src, x, y, 2);
    var alpha := ChannelAverage(a, src, x, y, 3);
    var d := dst.At(x, y);
    assert d + PixelBytes <= a.Length;
    a[d], a[d + 1], a[d + 2], a[d + 3] := red, green, blue, alpha;
    forall c | 0 <= c < PixelBytes ensures a[dst.Index(x, y, c)] == SourceAverage(before, src, x, y, c) {
      if c == 0 {
      } else if c == 1 {
      } else if c == 2 {
      } else {
      }
    }
  }

  /** Reads the mean of channel c of the source pixels under destination pixel (x, y). */
  method ChannelAverage(a: array<Byte>, src: Level, x: nat, y: nat, c: nat) returns (avg: Byte)
    requires 2 * x + 1 < src.paddedWidth && 2 * y + 1 < src.paddedHeight && c < PixelBytes && src.End() <= a.Length
    ensures avg == SourceAverage(a[..], src, x, y, c)
  {
    avg := Average(a[src.Index(2 * x, 2 * y, c)], a[src.Index(2 * x + 1, 2 * y, c)],
                   a[src.Index(2 * x, 2 * y + 1, c)], a[src.Index(2 * x + 1, 2 * y + 1, c)]);
  }

  /** Writing the means of pixel (x, y) extends the finished pixels by that pixel. */
  lemma DownscaleStep(before: seq<Byte>, prior: seq<Byte>, a: seq<Byte>, src: Level, dst: Level, x: nat, y: nat)
    requires Downscalable(src, dst, |before|) && x < dst.width && y < dst.height
    requires DownscaledUpTo(before, prior, src, dst, y, x) && |a| == |prior|
    requires forall c :: 0 <= c < PixelBytes ==> a[dst.Index(x, y, c)] == SourceAverage(prior, src, x, y, c)
    requires forall i :: 0 <= i < |a| && !(dst.At(x, y) <= i < dst.At(x, y) + PixelBytes) ==> a[i] == prior[i]
    ensures DownscaledUpTo(before, a, src, dst, y, x + 1)
  {
    OtherPixelsKept(prior, a, dst, x, y);
    SourceKept(before, prior, src, dst, x, y);
  }

  /** The means of a destination pixel only read the source level, which a buffer that
    * changed only inside the destination still holds. */
  lemma SourceKept(before: seq<Byte>, a: seq<Byte>, src: Level, dst: Level, x: nat, y: nat)
    requires Downscalable(src, dst, |before|) && x < dst.width && y < dst.height && |a| == |before|
    requires forall i :: 0 <= i < |a| && !(dst.start <= i < dst.End()) ==> a[i] == before[i]
    ensures forall c :: 0 <= c < PixelBytes ==> SourceAverage(a, src, x, y, c) == SourceAverage(before, src, x, y, c)
  {
    forall c | 0 <= c < PixelBytes ensures SourceAverage(a, src, x, y, c) == SourceAverage(before, src, x, y, c) {
      assert a[src.Index(2 * x, 2 * y, c)] == before[src.Index(2 * x, 2 * y, c)];
      assert a[src.Index(2 * x + 1, 2 * y, c)] == before[src.Index(2 * x + 1, 2 * y, c)];
      assert a[src.Index(2 * x, 2 * y + 1, c)] == before[src.Index(2 * x, 2 * y + 1, c)];
      assert a[src.Index(2 * x + 1, 2 * y + 1, c)] == before[src.Index(2 * x + 1, 2 * y + 1, c)];
    }
  }

  /** box_downscale, corrected: row by row and pixel by pixel, each destination channel
    * becomes the mean of the four source bytes of that channel. */
  method BoxDownscale(a: array<Byte>, src: Level, dst: Level)
    requires Downscalable(src, dst, a.Length)
    modifies a
    ensures a[..] == Downscaled(old(a[..]), src, dst)
  {
    ghost var before := a[..];
    for y := 0 to dst.height
      invariant DownscaledUpTo(before, a[..], src, dst, y, 0)
    {
      for x := 0 to dst.width
        invariant DownscaledUpTo(before, a[..], src, dst, y, x)
      {
        ghost var prior := a[..];
        AveragePixel(a, src, dst, x, y);
        DownscaleStep(before, prior, a[..], src, dst, x, y);
      }
    }
    forall x: nat, y: nat, c: nat | x < dst.paddedWidth && y < dst.paddedHeight && c < PixelBytes
      ensures a[..][dst.Index(x, y, c)] == Downscaled(before, src, dst)[dst.Index(x, y, c)]
    {
      DownscaledPixel(before, src, dst, x, y, c);
    }
    LevelEquality(a[..], Downscaled(before, src, dst), dst);
  }

  /** The first byte of a row of the destination grid. */
  predicate RowStart(dst: Level, i: nat)
  {
    dst.start <= i < dst.End() && dst.Column(i) == 0 && dst.Channel(i) == 0
  }

  /** The value the loop as written stores at the start of destination row y: the mean of
    * the first two bytes of source rows 2y and 2y + 1. */
  function RowStartAverage(s: seq<Byte>, src: Level, y: nat): (r: Byte)
    requires 0 < src.paddedWidth && 2 * y + 1 < src.paddedHeight && src.End() <= |s|
  {
    Average(s[src.Index(0, 2 * y, 0)], s[src.Index(0, 2 * y, 1)],
            s[src.Index(0, 2 * y + 1, 0)], s[src.Index(0, 2 * y + 1, 1)])
  }

  /** The buffer after box_downscale as written: the start of each row of the padded
    * destination grid holds its RowStartAverage (when rows have bytes at all), and every
    * other byte is kept. */
  function DownscaledAsWritten(s: seq<Byte>, src: Level, dst: Level): (r: seq<Byte>)
    requires Downscalable(src, dst, |s|) && HalvesAsAsserted(src, dst)
    ensures |r| == |s|
    ensures forall i :: 0 <= i < |s| && !RowStart(dst, i) ==> r[i] == s[i]
  {
    seq(|s|, i requires 0 <= i < |s| =>
      if 0 < dst.paddedWidth && RowStart(dst, i) then RowStartAverage(s, src, dst.Row(i)) else s[i])
  }

  /** The rows above `rows` have their first byte written. */
  ghost predicate RowStartsUpTo(before: seq<Byte>, after: seq<Byte>, src: Level, dst: Level, rows: nat)
    requires Downscalable(src, dst, |before|) && HalvesAsAsserted(src, dst)
  {
    && |after| == |before|
    && forall i | 0 <= i < |before| ::
         after[i] == if 0 < dst.paddedWidth && RowStart(dst, i) && dst.Row(i) < rows
                     then RowStartAverage(before, src, dst.Row(i)) else before[i]
  }

  /** The first byte of destination row y is the one RowStart byte of that row. */
  lemma RowStartOf(dst: Level, y: nat, i: nat)
    requires 0 < dst.paddedWidth && y < dst.paddedHeight
    ensures RowStart(dst, dst.At(0, y)) && dst.Row(dst.At(0, y)) == y
    ensures dst.start <= i < dst.End() && dst.Row(i) == y && RowStart(dst, i) ==> i == dst.At(0, y)
  {
    Decompose(dst, 0, y, 0);
    if dst.start <= i < dst.End() {
      Compose(dst, i);
    }
  }

  /** box_downscale as written, over the padded grids that width() and height() report: the
    * pointers into the three rows are never advanced, so the inner loop stores the same mean
    * into the first byte of the row bytes_per_row times. */
  method BoxDownscaleAsWritten(a: array<Byte>, src: Level, dst: Level)
    requires Downscalable(src, dst, a.Length) && HalvesAsAsserted(src, dst)
    modifies a
    ensures a[..] == DownscaledAsWritten(old(a[..]), src, dst)
  {
    ghost var before := a[..];
    var bytesPerRow := dst.paddedWidth * PixelBytes;
    for y := 0 to dst.paddedHeight
      invariant RowStartsUpTo(before, a[..], src, dst, y)
    {
      ghost var rowBefore := a[..];
      WriteRowStart(a, src, dst, y, bytesPerRow);
      if bytesPerRow > 0 {
        RowSourceKept(before, rowBefore, src, dst, y);
        RowStartsStep(before, rowBefore, a[..], src, dst, y);
      }
    }
  }

  /** The source bytes a row of the as-written loop reads are still the original ones. */
  lemma RowSourceKept(before: seq<Byte>, now: seq<Byte>, src: Level, dst: Level, y: nat)
    requires Downscalable(src, dst, |before|) && HalvesAsAsserted(src, dst) && y < dst.paddedHeight && 0 < dst.paddedWidth
    requires RowStartsUpTo(before, now, src, dst, y)
    ensures 2 * y + 1 < src.paddedHeight && 0 < src.paddedWidth
    ensures RowStartAverage(now, src, y) == RowStartAverage(before, src, y)
  {
    assert src.End() <= dst.start || dst.End() <= src.start;
    var i0, i1 := src.Index(0, 2 * y, 0), src.Index(0, 2 * y + 1, 0);
    assert !RowStart(dst, i0) && !RowStart(dst, i0 + 1) && !RowStart(dst, i1) && !RowStart(dst, i1 + 1);
    assert now[i0] == before[i0] && now[i0 + 1] == before[i0 + 1];
    assert now[i1] == before[i1] && now[i1 + 1] == before[i1 + 1];
  }

  /** The inner loop of box_downscale as written for destination row y: it stores the mean of
    * the first two bytes of the two source rows into the first byte of the row, bytes_per_row
    * times over. */
  method WriteRowStart(a: array<Byte>, src: Level, dst: Level, y: nat, bytesPerRow: nat)
    requires Downscalable(src, dst, a.Length) && HalvesAsAsserted(src, dst)
    requires y < dst.paddedHeight && bytesPerRow == dst.paddedWidth * PixelBytes
    modifies a
    ensures bytesPerRow == 0 ==> a[..] == old(a[..])
    ensures bytesPerRow > 0 ==>
      && 0 < src.paddedWidth && 2 * y + 1 < src.paddedHeight
      && a[..] == old(a[..])[dst.At(0, y) := RowStartAverage(old(a[..]), src, y)]
  {
    ghost var rowBefore := a[..];
    var source0 := src.At(0, 2 * y);
    var source1 := src.At(0, 2 * y + 1);
    var destination := dst.At(0, y);
    if bytesPerRow > 0 {
      assert src.End() <= dst.start || dst.End() <= src.start;
      assert source0 + PixelBytes <= src.End() && source1 + PixelBytes <= src.End();
    }
    for byteX := 0 to bytesPerRow
      invariant a[..] == if byteX == 0 then rowBefore else rowBefore[destination := RowStartAverage(rowBefore, src, y)]
    {
      var avg := Average(a[source0], a[source0 + 1], a[source1], a[source1 + 1]);
      a[destination] := avg;
    }
  }

  /** Writing the first byte of row y extends the rows written by one. */
  lemma {:induction false} RowStartsStep(before: seq<Byte>, rowBefore: seq<Byte>, after: seq<Byte>, src: Level, dst: Level, y: nat)
    requires Downscalable(src, dst, |before|) && HalvesAsAsserted(src, dst) && y < dst.paddedHeight && 0 < dst.paddedWidth
    requires RowStartsUpTo(before, rowBefore, src, dst, y)
    requires 2 * y + 1 < src.paddedHeight && 0 < src.paddedWidth
    requires after == rowBefore[dst.At(0, y) := RowStartAverage(before, src, y)]
    ensures RowStartsUpTo(before, after, src, dst, y + 1)
  {
    var d := dst.At(0, y);
    RowStartOf(dst, y, d);
    forall i | 0 <= i < |before|
      ensures after[i] == if RowStart(dst, i) && dst.Row(i) < y + 1
                          then RowStartAverage(before, src, dst.Row(i)) else before[i]
    {
      if i != d {
        RowStartOf(dst, y, i);
        assert after[i] == rowBefore[i];
      }
    }
  }

  /** The as-written loop differs from a box filter: on an 8x8 source whose pixels are all
    * (200, 200, 200, 200), the green channel of the first pixel of its 4x4 destination stays
    * 0 instead of becoming 200. */
  lemma AsWrittenLeavesChannels()
    ensures var src, dst := Level(0, 8, 8, 8, 8), Level(256, 4, 4, 4, 4);
      var s := seq(320, i => if i < 256 then 200 else 0);
      && Downscalable(src, dst, |s|) && HalvesAsAsserted(src, dst)
      && DownscaledAsWritten(s, src, dst)[257] == 0
      && Downscaled(s, src, dst)[257] == 200
  {
    var src, dst := Level(0, 8, 8, 8, 8), Level(256, 4, 4, 4, 4);
    var s: seq<Byte> := seq(320, i => if i < 256 then 200 else 0);
    assert dst.Channel(257) == 1;
    assert dst.Index(0, 0, 1) == 257;
    DownscaledPixel(s, src, dst, 0, 0, 1);
  }

  /** Without the assert, the loop as written reads past the source: for the two levels of a
    * 2x2 image, both padded to 4x4 and laid out one after the other, destination row 3 reads
    * source row 7, whose first byte lies in the destination level. */
  lemma UnassertedReadsDestination()
    ensures var src, dst := Level(0, 2, 2, 4, 4), Level(64, 1, 1, 4, 4);
      && Downscalable(src, dst, dst.End()) && !HalvesAsAsserted(src, dst)
      && 2 * (dst.paddedHeight - 1) + 1 == 7 >= src.paddedHeight
      && dst.start <= src.At(0, 7) < dst.End()
  {
  }
}
