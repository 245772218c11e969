/**
 * The decoding stage of the pipeline (filter_decode_png.cpp): after a PNG file has been
 * decoded into the first level of a mipmap image, the first level is padded and every
 * further level is downscaled from the one before it and padded in turn.
 */
module DecodePngFilter {
  import opened Util
  import opened Image
  import opened MipmapImage
  import opened PixelGrid
  import opened Padding
  import opened Resize
  import opened MipmapLevels
  import opened Wrappers
  import opened FilterCommon
  import opened Paths
  import Png

  /** One iteration of the loop of process_image: level k is downscaled from level k - 1 and
    * padded. */
  function Step(t: seq<Byte>, levels: seq<Level>, k: nat): (r: seq<Byte>)
    requires 1 <= k < |levels| && Stacked(levels, |t|)
    ensures |r| == |t|
    ensures forall i :: 0 <= i < |t| && !(levels[k].start <= i < levels[k].End()) ==> r[i] == t[i]
  {
    Padded(Downscaled(t, levels[k - 1], levels[k]), levels[k])
  }

  /** The buffer after the iterations for levels k, k + 1, ... of the loop. */
  function Remaining(t: seq<Byte>, levels: seq<Level>, k: nat): (r: seq<Byte>)
    requires 1 <= k <= |levels| && Stacked(levels, |t|)
    ensures |r| == |t|
    decreases |levels| - k
  {
    if k == |levels| then t else Remaining(Step(t, levels, k), levels, k + 1)
  }

  /** The buffer after process_image: level 0 padded, then each further level handled in
    * order. */
  function Processed(s: seq<Byte>, levels: seq<Level>): (r: seq<Byte>)
    requires 1 <= |levels| && Stacked(levels, |s|)
    ensures |r| == |s|
  {
    Remaining(Padded(s, levels[0]), levels, 1)
  }

  /** process_image: pads the first level, then computes and pads each further level in
    * order. */
  method ProcessImage(m: MipmapImage, dims: seq<(SizeT, SizeT)>)
    requires m.Valid() && PaddedAs(m.images, dims) && Halving(dims) && HeaderSized(dims) && |dims| >= 1
    modifies m.data
    ensures m.Valid() && Stacked(Geometry(m.images, dims), m.data.Length)
    ensures m.data[..] == Processed(old(m.data[..]), Geometry(m.images, dims))
  {
    GeometryStacked(m, dims);
    ProcessLevels(m.data, Geometry(m.images, dims));
  }

  /** The body of process_image on the buffer and the grids of its levels, downscaling with
    * the corrected box filter: box_downscale as written fails its assert on the last two
    * levels of every mipmap chain of two or more levels (ChainBreaksAssert). */
  method ProcessLevels(a: array<Byte>, levels: seq<Level>)
    requires 1 <= |levels| && Stacked(levels, a.Length)
    modifies a
    ensures a[..] == Processed(old(a[..]), levels)
  {
    ghost var s := a[..];
    AddPadding(a, levels[0]);
    for mipmapIndex := 1 to |levels|
      invariant Remaining(a[..], levels, mipmapIndex) == Processed(s, levels)
    {
      BoxDownscale(a, levels[mipmapIndex - 1], levels[mipmapIndex]);
      AddPadding(a, levels[mipmapIndex]);
    }
  }

  /** The iterations from level k on write only levels k and above. */
  lemma {:induction false} RemainingKeeps(t: seq<Byte>, levels: seq<Level>, k: nat, i: nat)
    requires 1 <= k <= |levels| && Stacked(levels, |t|) && i < |t|
    requires forall l :: k <= l < |levels| ==> !(levels[l].start <= i < levels[l].End())
    ensures Remaining(t, levels, k)[i] == t[i]
    decreases |levels| - k
  {
    if k < |levels| {
      RemainingKeeps(Step(t, levels, k), levels, k + 1, i);
    }
  }

  /** Every pixel of level l is the mean of the 2x2 pixels of level l - 1 under the real
    * pixel its padding copies. */
  ghost predicate DownscaledLevel(t: seq<Byte>, levels: seq<Level>, l: nat)
    requires 1 <= l < |levels| && Stacked(levels, |t|)
  {
    forall x: nat, y: nat, c: nat {:trigger t[levels[l].Index(x, y, c)]}
      | x < levels[l].paddedWidth && y < levels[l].paddedHeight && c < PixelBytes ::
      && Border(x, levels[l].width) < levels[l].width && Border(y, levels[l].height) < levels[l].height
      && t[levels[l].Index(x, y, c)]
         == SourceAverage(t, levels[l - 1], Border(x, levels[l].width), Border(y, levels[l].height), c)
  }

  /** The mean of the source pixels depends only on the bytes of the source level. */
  lemma SourceAverageKept(t: seq<Byte>, u: seq<Byte>, src: Level, x: nat, y: nat, c: nat)
    requires 2 * x + 1 < src.paddedWidth && 2 * y + 1 < src.paddedHeight && c < PixelBytes
    requires src.End() <= |t| == |u|
    requires forall j :: src.start <= j < src.End() ==> u[j] == t[j]
    ensures SourceAverage(u, src, x, y, c) == SourceAverage(t, src, x, y, c)
  {
  }

  /** A pixel of level l, k <= l, after the iterations from level k on. */
  lemma {:induction false} RemainingPixel(t: seq<Byte>, levels: seq<Level>, k: nat, l: nat, x: nat, y: nat, c: nat)
    requires 1 <= k <= l < |levels| && Stacked(levels, |t|)
    requires x < levels[l].paddedWidth && y < levels[l].paddedHeight && c < PixelBytes
    ensures Border(x, levels[l].width) < levels[l].width && Border(y, levels[l].height) < levels[l].height
    ensures Remaining(t, levels, k)[levels[l].Index(x, y, c)]
      == SourceAverage(Remaining(t, levels, k), levels[l - 1], Border(x, levels[l].width), Border(y, levels[l].height), c)
    decreases |levels| - k
  {
    var next := Step(t, levels, k);
    if k < l {
      RemainingPixel(next, levels, k + 1, l, x, y, c);
    } else {
      var src, dst := levels[k - 1], levels[k];
      var sx, sy := Border(x, dst.width), Border(y, dst.height);
      assert Downscalable(src, dst, |t|);
      var i := dst.Index(x, y, c);
      forall m | k + 1 <= m < |levels| ensures !(levels[m].start <= i < levels[m].End()) {
        assert dst.End() <= levels[m].start;
      }
      RemainingKeeps(next, levels, k + 1, i);
      PaddedPixel(Downscaled(t, src, dst), dst, x, y, c);
      DownscaledPixel(t, src, dst, sx, sy, c);
      forall j | src.start <= j < src.End() ensures Remaining(t, levels, k)[j] == t[j] {
        forall m | k <= m < |levels| ensures !(levels[m].start <= j < levels[m].End()) {
          assert src.End() <= levels[m].start;
        }
        RemainingKeeps(t, levels, k, j);
      }
      SourceAverageKept(t, Remaining(t, levels, k), src, sx, sy, c);
    }
  }

  /** Byte i belongs to one of the levels. */
  ghost predicate InLevels(levels: seq<Level>, i: nat)
  {
    exists l :: 0 <= l < |levels| && levels[l].start <= i < levels[l].End()
  }

  /** What process_image does to the buffer s, pixel by pixel: bytes outside the levels are
    * kept, level 0 is padded, and every further level is the padded downscale of the level
    * before it as it ends up. */
  ghost predicate ProcessedPixels(s: seq<Byte>, u: seq<Byte>, levels: seq<Level>)
    requires 1 <= |levels| && Stacked(levels, |s|)
  {
    && |u| == |s|
    && (forall i :: 0 <= i < |s| && !InLevels(levels, i) ==> u[i] == s[i])
    && (forall x: nat, y: nat, c: nat {:trigger u[levels[0].Index(x, y, c)]}
        | x < levels[0].paddedWidth && y < levels[0].paddedHeight && c < PixelBytes ::
        u[levels[0].Index(x, y, c)] == s[levels[0].Index(Border(x, levels[0].width), Border(y, levels[0].height), c)])
    && (forall l :: 1 <= l < |levels| ==> DownscaledLevel(u, levels, l))
  }

  /** The buffer after process_image is described by its pixels, and it is the only buffer
    * they describe. */
  lemma ProcessedUnique(s: seq<Byte>, u: seq<Byte>, levels: seq<Level>)
    requires 1 <= |levels| && Stacked(levels, |s|)
    ensures ProcessedPixels(s, Processed(s, levels), levels)
    ensures ProcessedPixels(s, u, levels) ==> u == Processed(s, levels)
  {
    var first := Padded(s, levels[0]);
    var p := Processed(s, levels);
    forall i | 0 <= i < |s| && !InLevels(levels, i) ensures p[i] == s[i] {
      RemainingKeeps(first, levels, 1, i);
    }
    forall x: nat, y: nat, c: nat | x < levels[0].paddedWidth && y < levels[0].paddedHeight && c < PixelBytes
      ensures p[levels[0].Index(x, y, c)] == s[levels[0].Index(Border(x, levels[0].width), Border(y, levels[0].height), c)]
    {
      var i := levels[0].Index(x, y, c);
      forall m | 1 <= m < |levels| ensures !(levels[m].start <= i < levels[m].End()) {
        assert levels[0].End() <= levels[m].start;
      }
      RemainingKeeps(first, levels, 1, i);
      PaddedPixel(s, levels[0], x, y, c);
    }
    forall l | 1 <= l < |levels| ensures DownscaledLevel(p, levels, l) {
      forall x: nat, y: nat, c: nat | x < levels[l].paddedWidth && y < levels[l].paddedHeight && c < PixelBytes
        ensures && Border(x, levels[l].width) < levels[l].width && Border(y, levels[l].height) < levels[l].height
                && p[levels[l].Index(x, y, c)]
                   == SourceAverage(p, levels[l - 1], Border(x, levels[l].width), Border(y, levels[l].height), c)
      {
        RemainingPixel(first, levels, 1, l, x, y, c);
      }
    }
    if ProcessedPixels(s, u, levels) {
      forall i | 0 <= i < |s| ensures u[i] == p[i] {
        if l :| 0 <= l < |levels| && levels[l].start <= i < levels[l].End() {
          LevelAgrees(s, u, p, levels, l);
        }
      }
    }
  }

  /** Two buffers with the pixels of process_image agree on level l. */
  lemma {:induction false} LevelAgrees(s: seq<Byte>, u: seq<Byte>, p: seq<Byte>, levels: seq<Level>, l: nat)
    requires 1 <= |levels| && Stacked(levels, |s|) && l < |levels|
    requires ProcessedPixels(s, u, levels) && ProcessedPixels(s, p, levels)
    ensures forall i :: levels[l].start <= i < levels[l].End() ==> u[i] == p[i]
  {
    var level := levels[l];
    if l > 0 {
      LevelAgrees(s, u, p, levels, l - 1);
    }
    forall i | level.start <= i < level.End() ensures u[i] == p[i] {
      var x, y, c := level.Column(i), level.Row(i), level.Channel(i);
      Compose(level, i);
      if l > 0 {
        assert DownscaledLevel(u, levels, l) && DownscaledLevel(p, levels, l);
        SourceAverageKept(p, u, levels[l - 1], Border(x, level.width), Border(y, level.height), c);
      }
    }
  }

  /** The PNG decoder already pads the first level; padding it again in process_image changes
    * nothing. */
  lemma DecodedThenProcessed(s: seq<Byte>, levels: seq<Level>)
    requires 1 <= |levels| && Stacked(levels, |s|)
    ensures Processed(Padded(s, levels[0]), levels) == Processed(s, levels)
  {
    PaddedIdempotent(s, levels[0]);
  }

  /** An entry of the error queue: the path of the file and what went wrong. */
  datatype DecodeError = DecodeError(path: Path, failure: Png.Failure)

  /** The decode_png stage: the shared per-file data and error queue it updates, the work
    * list, and the flip and mipmap options. */
  class DecodePng {
    var filesData: seq<FileData>
    const paths: seq<PathPair>
    const vflip: bool
    var errors: seq<DecodeError>
    const mipmaps: bool

    constructor(filesData: seq<FileData>, paths: seq<PathPair>, vflip: bool, mipmaps: bool, errors: seq<DecodeError>)
      ensures this.filesData == filesData && this.paths == paths && this.vflip == vflip
      ensures this.mipmaps == mipmaps && this.errors == errors
    {
      this.filesData := filesData;
      this.paths := paths;
      this.vflip := vflip;
      this.errors := errors;
      this.mipmaps := mipmaps;
    }

    /** operator(): `lib` stands for libspng's answers on the file's bytes. An empty buffer
      * was already reported by the loading stage and gives an empty error image. Otherwise
      * the reported dimensions are recorded; a failure is queued once and gives the error
      * image; a decoded image has its level count recorded and is processed. */
    method Apply(file: PngFile, lib: Png.Library) returns (result: MipmapImage)
      requires lib.Valid()
      requires |file.buffer| > 0 ==> file.fileIndex < |filesData| && file.fileIndex < |paths|
      modifies this
      ensures fresh(result) && fresh(result.data) && result.Valid()
      ensures |file.buffer| == 0 ==>
        && filesData == old(filesData) && errors == old(errors)
        && result.fileIndex == ErrorFileIndex && result.MipmapCount() == 1 && result.data.Length == 0
      ensures |file.buffer| > 0 ==>
        var i, size, outcome := file.fileIndex, Png.ReportedSize(lib), Png.Outcome(lib, vflip);
        && |filesData| == |old(filesData)|
        && (forall j :: 0 <= j < |filesData| && j != i ==> filesData[j] == old(filesData)[j])
        && filesData[i].width == size.0 && filesData[i].height == size.1
        && filesData[i].format == old(filesData)[i].format
        && filesData[i].mipmaps == (if outcome.None? then result.MipmapCount() else old(filesData)[i].mipmaps)
        && errors == old(errors) + (if outcome.Some? then [DecodeError(paths[i].input, outcome.value)] else [])
        && (outcome.Some? ==> result.fileIndex == ErrorFileIndex && result.MipmapCount() == 1 && result.data.Length == 0)
      ensures |file.buffer| > 0 && Png.Outcome(lib, vflip).None? ==>
        && result.fileIndex == file.fileIndex
        && result.MipmapCount() == |Levels(lib.headerWidth, lib.headerHeight, mipmaps)|
        && DecodedAndProcessed(result, lib, vflip, mipmaps)
    {
      if |file.buffer| == 0 {
        result := ErrorImage();
      } else {
        result := DecodeFile(file.fileIndex, lib);
      }
    }

    /** operator() on the non-empty buffer of file i: its reported dimensions are recorded; a
      * failure is queued once and gives the error image; a decoded image has its level count
      * recorded and is processed. */
    method DecodeFile(i: SizeT, lib: Png.Library) returns (result: MipmapImage)
      requires lib.Valid() && i < |filesData| && i < |paths|
      modifies this
      ensures fresh(result) && fresh(result.data) && result.Valid()
      ensures var size, outcome := Png.ReportedSize(lib), Png.Outcome(lib, vflip);
        && |filesData| == |old(filesData)|
        && (forall j :: 0 <= j < |filesData| && j != i ==> filesData[j] == old(filesData)[j])
        && filesData[i].width == size.0 && filesData[i].height == size.1
        && filesData[i].format == old(filesData)[i].format
        && filesData[i].mipmaps == (if outcome.None? then result.MipmapCount() else old(filesData)[i].mipmaps)
        && errors == old(errors) + (if outcome.Some? then [DecodeError(paths[i].input, outcome.value)] else [])
        && (outcome.Some? ==> result.fileIndex == ErrorFileIndex && result.MipmapCount() == 1 && result.data.Length == 0)
      ensures Png.Outcome(lib, vflip).None? ==>
        && result.fileIndex == i
        && result.MipmapCount() == |Levels(lib.headerWidth, lib.headerHeight, mipmaps)|
        && DecodedAndProcessed(result, lib, vflip, mipmaps)
    {
      var fallback := ErrorImage();
      var decoded, width, height := DecodeImage(i, lib, vflip, mipmaps);
      if decoded.Ok? {
        LevelsCount(lib.headerWidth, lib.headerHeight, mipmaps);
      }
      result := Finish(i, fallback, decoded, width, height, lib);
    }

    /** The end of operator() for file i: its reported dimensions are recorded; a decoded
      * image has its level count recorded and is the result; a failure is queued once and
      * leaves the error image `fallback` as the result. */
    method Finish(i: SizeT, fallback: MipmapImage, decoded: Result<MipmapImage, Png.Failure>, width: SizeT, height: SizeT,
                  ghost lib: Png.Library)
      returns (result: MipmapImage)
      requires i < |filesData| && i < |paths| && fallback.Valid()
      requires decoded.Ok? ==>
        && decoded.value.Valid() && decoded.value.MipmapCount() <= SIZE_MAX
        && DecodedAndProcessed(decoded.value, lib, vflip, mipmaps)
      modifies this
      ensures result == if decoded.Ok? then decoded.value else fallback
      ensures result.Valid() && (decoded.Ok? ==> DecodedAndProcessed(result, lib, vflip, mipmaps))
      ensures |filesData| == |old(filesData)|
      ensures forall j :: 0 <= j < |filesData| && j != i ==> filesData[j] == old(filesData)[j]
      ensures filesData[i].width == width && filesData[i].height == height
      ensures filesData[i].format == old(filesData)[i].format
      ensures filesData[i].mipmaps == if decoded.Ok? then decoded.value.MipmapCount() else old(filesData)[i].mipmaps
      ensures errors == old(errors) + if decoded.Err? then [DecodeError(paths[i].input, decoded.error)] else []
    {
      var data := filesData[i].(width := width, height := height);
      if decoded.Ok? {
        result := decoded.value;
        data := data.(mipmaps := result.MipmapCount());
      } else {
        result := fallback;
        errors := errors + [DecodeError(paths[i].input, decoded.error)];
      }
      filesData := filesData[i := data];
    }
  }

  /** A mipmap image whose first level holds the decoded rows of `lib` and all of whose levels
    * have then been processed. */
  ghost predicate DecodedAndProcessed(m: MipmapImage, lib: Png.Library, flip: bool, mipmaps: bool)
    reads m, m.data
  {
    && LaidOut(m.images, m.data.Length, lib, mipmaps)
    && m.data[..] == Processed(DecodedRows(lib, flip, m.data.Length),
                               Geometry(m.images, Levels(lib.headerWidth, lib.headerHeight, mipmaps)))
  }

  /** The levels of a buffer of `length` bytes laid out for the header's dimensions: padded
    * as the mipmap constructor pads them, stacked, and with room for the library's rows in
    * the first one. */
  ghost predicate LaidOut(images: seq<Image>, length: nat, lib: Png.Library, mipmaps: bool)
  {
    var dims := Levels(lib.headerWidth, lib.headerHeight, mipmaps);
    && PaddedAs(images, dims)
    && Png.FirstLevel(lib.headerWidth, lib.headerHeight).End() <= length
    && lib.headerHeight >= 1 && RowsFitLevel(lib)
    && Stacked(Geometry(images, dims), length)
  }

  /** The buffer after the row loop over a zeroed buffer of `length` bytes. */
  ghost function DecodedRows(lib: Png.Library, flip: bool, length: nat): (r: seq<Byte>)
    requires lib.headerHeight >= 1 && RowsFitLevel(lib)
    requires Png.FirstLevel(lib.headerWidth, lib.headerHeight).End() <= length
    ensures |r| == length
  {
    Png.DecodeRows(Png.Zeros(length), Png.FirstLevel(lib.headerWidth, lib.headerHeight), lib.rows, flip, Png.FileWidth(lib)).buffer
  }

  /** The library's rows fit the first level of its header's dimensions. */
  predicate RowsFitLevel(lib: Png.Library)
  {
    Png.RowsFit(lib.rows, Png.FirstLevel(lib.headerWidth, lib.headerHeight))
  }

  /** png::decode followed, on success, by process_image. */
  method DecodeImage(fileIndex: SizeT, lib: Png.Library, flip: bool, mipmaps: bool)
    returns (result: Result<MipmapImage, Png.Failure>, width: SizeT, height: SizeT)
    requires lib.Valid()
    ensures (width, height) == Png.ReportedSize(lib)
    ensures result.Err? <==> Png.Outcome(lib, flip).Some?
    ensures result.Err? ==> result.error == Png.Outcome(lib, flip).value
    ensures result.Ok? ==>
      && fresh(result.value) && fresh(result.value.data) && result.value.fileIndex == fileIndex
      && (forall i :: 0 <= i < |result.value.images| ==> fresh(result.value.images[i]))
      && result.value.Valid() && result.value.MipmapCount() == |Levels(lib.headerWidth, lib.headerHeight, mipmaps)|
      && DecodedAndProcessed(result.value, lib, flip, mipmaps)
  {
    result, width, height := Png.Decode(fileIndex, lib, flip, mipmaps);
    if result.Ok? {
      ProcessDecoded(result.value, lib, flip, mipmaps);
    }
  }

  /** The image of a failed file: the error index, one level and no bytes. */
  method ErrorImage() returns (m: MipmapImage)
    ensures fresh(m) && fresh(m.data) && m.Valid()
    ensures m.fileIndex == ErrorFileIndex && m.MipmapCount() == 1 && m.data.Length == 0
  {
    m := new MipmapImage(ErrorFileIndex, 0, 0, false);
    EmptyImage(m);
  }

  /** process_image applied to the image png::decode returned. */
  method ProcessDecoded(m: MipmapImage, lib: Png.Library, flip: bool, mipmaps: bool)
    requires lib.Valid() && Png.FirstLevelDecoded(m, lib, flip, mipmaps)
    modifies m.data
    ensures m.Valid() && m.MipmapCount() == |Levels(lib.headerWidth, lib.headerHeight, mipmaps)|
    ensures DecodedAndProcessed(m, lib, flip, mipmaps)
  {
    var dims := Levels(lib.headerWidth, lib.headerHeight, mipmaps);
    DecodedLevels(m, lib, flip, mipmaps);
    ghost var images := m.images;
    ProcessImage(m, dims);
    assert m.images == images;
  }

  /** The image png::decode returned is laid out for the header's dimensions, and processing
    * it is processing the decoded rows. */
  lemma DecodedLevels(m: MipmapImage, lib: Png.Library, flip: bool, mipmaps: bool)
    requires Png.FirstLevelDecoded(m, lib, flip, mipmaps)
    ensures var dims := Levels(lib.headerWidth, lib.headerHeight, mipmaps);
      && Halving(dims) && HeaderSized(dims) && LaidOut(m.images, m.data.Length, lib, mipmaps)
    ensures Processed(m.data[..], Geometry(m.images, Levels(lib.headerWidth, lib.headerHeight, mipmaps)))
      == Processed(DecodedRows(lib, flip, m.data.Length), Geometry(m.images, Levels(lib.headerWidth, lib.headerHeight, mipmaps)))
  {
    var dims := Levels(lib.headerWidth, lib.headerHeight, mipmaps);
    LevelsHalving(lib.headerWidth, lib.headerHeight, mipmaps);
    GeometryStacked(m, dims);
    assert Geometry(m.images, dims)[0] == Png.FirstLevel(lib.headerWidth, lib.headerHeight);
    DecodedThenProcessed(DecodedRows(lib, flip, m.data.Length), Geometry(m.images, dims));
  }

  /** The error image has one empty level and no bytes. */
  lemma EmptyImage(m: MipmapImage)
    requires m.Valid() && PaddedAs(m.images, Levels(0, 0, false))
    ensures m.MipmapCount() == 1 && m.data.Length == 0
  {
    assert Offset(m.images, 1) == Offset(m.images, 0) + m.images[0].ByteCount();
  }
}
