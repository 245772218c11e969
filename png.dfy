/**
 * PNG decoding (png.cpp): libspng is an abstract decoder whose answers are given as a
 * `Library` record, and the model follows what decode does with those answers: the checks
 * in order, the progressive row loop with its optional vertical flip, the final status
 * check and the border padding of the first level.
 */
module Png {
  import opened Util
  import opened Wrappers
  import opened Image
  import opened MipmapImage
  import opened PixelGrid
  import opened Padding
  import opened Arithmetic

  /** The status codes of libspng the decoder distinguishes: 0, SPNG_EOI, SPNG_EIDAT_STREAM,
    * SPNG_EBUFSIZ and every other error. */
  datatype Status = Success | EndOfImage | IdatStream | BufferTooSmall | Failed(code: int)

  /** One iteration of the progressive loop: the answer of spng_get_row_info, the row number
    * it reports, and the answer of spng_decode_row with the decoded bytes of the row. */
  datatype RowStep = RowStep(info: Status, rowNum: nat, decode: Status, pixels: seq<Byte>)

  /** Everything libspng answers while one file is decoded, in call order. */
  datatype Library = Library(
    created: bool,
    bufferSet: Status,
    header: Status, headerWidth: U32, headerHeight: U32,
    sizeStatus: Status, decodedSize: SizeT,
    decodeInit: Status,
    rows: seq<RowStep>)
  {
    /** What libspng guarantees: a header it accepts has non-zero dimensions, it reports
      * rows of the image, each row holds 4 bytes per pixel, and the row stream ends with a
      * status other than 0. */
    predicate Valid()
    {
      && (header == Success ==> headerWidth >= 1 && headerHeight >= 1)
      && (forall i :: 0 <= i < |rows| ==>
            rows[i].rowNum < headerHeight && |rows[i].pixels| == PixelBytes * headerWidth)
      && |rows| >= 1 && (rows[|rows| - 1].info != Success || rows[|rows| - 1].decode != Success)
    }
  }

  /** The runtime errors decode throws, in the order it checks them. */
  datatype Failure =
    | ContextCreation
    | SetBuffer(status: Status)
    | ReadHeader(status: Status)
    | DecodedSize(status: Status)
    | DoesNotFit(expected: nat, calculated: nat)
    | DecodeInit(status: Status)
    | Progressive(status: Status)

  /** The row a decoded row is written to: itself, or counted from the bottom when the image
    * is flipped. */
  function FlipRow(flip: bool, height: nat, row: nat): (r: nat)
    requires row < height
    ensures r < height
  {
    if !flip then row else height - row - 1
  }

  /** Flipping twice gives the row back, so the row mapping is a bijection on the rows. */
  lemma FlipRowBijective(flip: bool, height: nat, row: nat, other: nat)
    requires row < height && other < height
    ensures FlipRow(flip, height, FlipRow(flip, height, row)) == row
    ensures FlipRow(flip, height, row) == FlipRow(flip, height, other) <==> row == other
    ensures flip ==> FlipRow(flip, height, row) + row == height - 1
  {
  }

  /** spng_decode_row refuses a buffer shorter than the row. */
  function RowStatus(step: RowStep, fileWidth: nat): (r: Status)
    ensures fileWidth < |step.pixels| ==> r == BufferTooSmall
    ensures |step.pixels| <= fileWidth ==> r == step.decode
  {
    if fileWidth < |step.pixels| then BufferTooSmall else step.decode
  }

  /** A row is written when it decodes, the last one included. */
  predicate Writes(status: Status)
  {
    status == Success || status == EndOfImage
  }

  /** The real rows decoded rows must land in, with 4 bytes per real pixel. */
  predicate RowsFit(rows: seq<RowStep>, l: Level)
  {
    forall i :: 0 <= i < |rows| ==> rows[i].rowNum < l.height && |rows[i].pixels| == PixelBytes * l.width
  }

  /** The bytes of row `row` of a level run from its first pixel to the end of the row. */
  lemma RowFits(l: Level, row: nat)
    requires row < l.paddedHeight
    ensures l.At(0, row) + PixelBytes * l.paddedWidth <= l.End()
  {
    MulMonotone(row + 1, l.paddedHeight, l.paddedWidth);
  }

  /** The buffer after `bytes` are decoded into the start of row `row` of a level. */
  function WriteRow(s: seq<Byte>, l: Level, row: nat, bytes: seq<Byte>): (r: seq<Byte>)
    requires row < l.paddedHeight && |bytes| <= PixelBytes * l.paddedWidth && l.End() <= |s|
    ensures |r| == |s|
    ensures forall i :: 0 <= i < |s| && !(l.start <= i < l.End()) ==> r[i] == s[i]
  {
    RowFits(l, row);
    s[..l.At(0, row)] + bytes + s[l.At(0, row) + |bytes|..]
  }

  /** The bytes of the buffer after a row write: the row's bytes from the row's first pixel on,
    * the old bytes everywhere else. */
  lemma WriteRowBytes(s: seq<Byte>, l: Level, row: nat, bytes: seq<Byte>, i: nat)
    requires row < l.paddedHeight && |bytes| <= PixelBytes * l.paddedWidth && l.End() <= |s| && i < |s|
    ensures l.At(0, row) <= i < l.At(0, row) + |bytes| ==> WriteRow(s, l, row, bytes)[i] == bytes[i - l.At(0, row)]
    ensures !(l.At(0, row) <= i < l.At(0, row) + |bytes|) ==> WriteRow(s, l, row, bytes)[i] == s[i]
  {
    RowFits(l, row);
  }

  /** Row y of a level lies after every row above it. */
  lemma RowsOrdered(l: Level, y: nat, row: nat)
    requires y < row
    ensures l.At(0, y) + PixelBytes * l.paddedWidth <= l.At(0, row)
  {
    MulMonotone(y + 1, row, l.paddedWidth);
  }

  /** Writing a row of the real width sets the real pixels of that row to the row's bytes
    * and keeps all other pixels. */
  lemma WriteRowPixel(s: seq<Byte>, l: Level, row: nat, bytes: seq<Byte>, x: nat, y: nat, c: nat)
    requires l.Valid() && l.End() <= |s| && row < l.paddedHeight && |bytes| == PixelBytes * l.width
    requires x < l.paddedWidth && y < l.paddedHeight && c < PixelBytes
    ensures WriteRow(s, l, row, bytes)[l.Index(x, y, c)]
      == if y == row && x < l.width then bytes[PixelBytes * x + c] else s[l.Index(x, y, c)]
  {
    var i := l.Index(x, y, c);
    assert i == l.At(0, y) + (PixelBytes * x + c);
    WriteRowBytes(s, l, row, bytes, i);
    if y < row {
      RowsOrdered(l, y, row);
    } else if y > row {
      RowsOrdered(l, row, y);
    }
  }

  /** The end of the progressive loop: the buffer and the status that stopped it. */
  datatype Decoding = Decoding(buffer: seq<Byte>, status: Status)

  /** The progressive loop over the remaining row steps: a step whose row information or
    * decoding fails stops the loop, and a decoded row is written to its (flipped) row. */
  function DecodeRows(s: seq<Byte>, l: Level, rows: seq<RowStep>, flip: bool, fileWidth: nat): (r: Decoding)
    requires l.Valid() && l.End() <= |s| && RowsFit(rows, l)
    ensures |r.buffer| == |s|
    ensures forall i :: 0 <= i < |s| && !(l.start <= i < l.End()) ==> r.buffer[i] == s[i]
    decreases |rows|
  {
    if |rows| == 0 then Decoding(s, Success)
    else if rows[0].info != Success then Decoding(s, rows[0].info)
    else
      var status := RowStatus(rows[0], fileWidth);
      var t := if Writes(status) then WriteRow(s, l, FlipRow(flip, l.height, rows[0].rowNum), rows[0].pixels) else s;
      if status != Success then Decoding(t, status) else DecodeRows(t, l, rows[1..], flip, fileWidth)
  }

  /** The tolerated end states of the row loop: the end of the image, and the IDAT stream
    * error the zlib replacement raises on its checksum. */
  predicate Tolerated(status: Status)
  {
    status == EndOfImage || status == IdatStream
  }

  /** The first level the mipmap image allocates for the header's dimensions, with the
    * header's dimensions as its real picture. */
  function FirstLevel(w: U32, h: U32): (r: Level)
    ensures r.Valid() && r.start == 0 && r.width == w && r.height == h
  {
    Level(0, w, h, NextDivisibleBy4(w), NextDivisibleBy4(h))
  }

  /** The bytes of the first level. */
  function FirstLevelBytes(w: U32, h: U32): (r: nat)
  {
    FirstLevel(w, h).End()
  }

  /** What decode answers for the library's responses, before and without the bytes: the first
    * failing check, or none. */
  function Checked(lib: Library): (r: Option<Failure>)
  {
    if !lib.created then Some(ContextCreation)
    else if lib.bufferSet != Success then Some(SetBuffer(lib.bufferSet))
    else if lib.header != Success then Some(ReadHeader(lib.header))
    else if lib.sizeStatus != Success then Some(DecodedSize(lib.sizeStatus))
    else if lib.decodedSize > FirstLevelBytes(lib.headerWidth, lib.headerHeight)
    then Some(DoesNotFit(FirstLevelBytes(lib.headerWidth, lib.headerHeight), lib.decodedSize))
    else if lib.decodeInit != Success then Some(DecodeInit(lib.decodeInit))
    else None
  }

  /** The dimensions decode reports through its reference parameters: zero until the header
    * has been read. */
  function ReportedSize(lib: Library): (r: (SizeT, SizeT))
    ensures r.0 <= UINT32_MAX && r.1 <= UINT32_MAX
  {
    if lib.created && lib.bufferSet == Success && lib.header == Success then (lib.headerWidth, lib.headerHeight) else (0, 0)
  }

  /** The loop's row width: the decoded size divided by the number of rows. */
  function FileWidth(lib: Library): (r: nat)
    requires lib.headerHeight >= 1
  {
    lib.decodedSize / lib.headerHeight
  }

  /** A buffer of n zero bytes, as the mipmap image allocates it. */
  function Zeros(n: nat): (r: seq<Byte>)
    ensures |r| == n && forall i :: 0 <= i < n ==> r[i] == 0
  {
    seq(n, _ => 0)
  }

  /** The status that ends the row loop does not depend on the bytes of the buffer. */
  lemma {:induction false} StatusIndependent(s: seq<Byte>, t: seq<Byte>, l: Level, rows: seq<RowStep>, flip: bool, fileWidth: nat)
    requires l.Valid() && l.End() <= |s| && l.End() <= |t| && RowsFit(rows, l)
    ensures DecodeRows(s, l, rows, flip, fileWidth).status == DecodeRows(t, l, rows, flip, fileWidth).status
    decreases |rows|
  {
    if |rows| > 0 && rows[0].info == Success && RowStatus(rows[0], fileWidth) == Success {
      var row := FlipRow(flip, l.height, rows[0].rowNum);
      StatusIndependent(WriteRow(s, l, row, rows[0].pixels), WriteRow(t, l, row, rows[0].pixels), l, rows[1..], flip, fileWidth);
    }
  }

  /** The status that ends the row loop for a library whose checks pass. */
  function LoopStatus(lib: Library, flip: bool): (r: Status)
    requires lib.Valid() && Checked(lib) == None
  {
    var l := FirstLevel(lib.headerWidth, lib.headerHeight);
    DecodeRows(Zeros(l.End()), l, lib.rows, flip, FileWidth(lib)).status
  }

  /** The library's rows fit the first level of the header's dimensions. */
  lemma LibraryRowsFit(lib: Library)
    requires lib.Valid()
    ensures RowsFit(lib.rows, FirstLevel(lib.headerWidth, lib.headerHeight))
  {
  }

  /** std::copy of the decoded row into the buffer from byte `start` on. */
  method CopyInto(a: array<Byte>, start: nat, bytes: seq<Byte>)
    requires start + |bytes| <= a.Length
    modifies a
    ensures forall i :: 0 <= i < a.Length ==>
      a[i] == if start <= i < start + |bytes| then bytes[i - start] else old(a[i])
  {
    for k := 0 to |bytes|
      invariant forall i :: 0 <= i < a.Length ==>
        a[i] == if start <= i < start + k then bytes[i - start] else old(a[i])
    {
      a[start + k] := bytes[k];
    }
  }

  /** spng_decode_row into the row starting at byte `start`, with a buffer of fileWidth
    * bytes: the row's bytes are written when it decodes. */
  method DecodeRow(a: array<Byte>, l: Level, start: nat, step: RowStep, fileWidth: nat, ghost row: nat)
    returns (status: Status)
    requires row < l.paddedHeight && start == l.At(0, row) && l.End() <= a.Length
    requires |step.pixels| <= PixelBytes * l.paddedWidth
    modifies a
    ensures status == RowStatus(step, fileWidth)
    ensures a[..] == if Writes(status) then WriteRow(old(a[..]), l, row, step.pixels) else old(a[..])
  {
    status := RowStatus(step, fileWidth);
    if Writes(status) {
      ghost var before := a[..];
      RowFits(l, row);
      CopyInto(a, start, step.pixels);
      forall i | 0 <= i < a.Length ensures a[i] == WriteRow(before, l, row, step.pixels)[i] {
        WriteRowBytes(before, l, row, step.pixels, i);
      }
    }
  }

  /** decode: the reference parameters end as the header's dimensions once the header has been
    * read; the first failing check is the error; otherwise the rows are decoded into the first
    * level of a new mipmap image, a loop status other than the tolerated ones is an error, and
    * the first level is padded. */
  method Decode(fileIndex: SizeT, lib: Library, flip: bool, mipmaps: bool)
    returns (result: Result<MipmapImage, Failure>, width: SizeT, height: SizeT)
    requires lib.Valid()
    ensures (width, height) == ReportedSize(lib)
    ensures result.Err? <==> Outcome(lib, flip).Some?
    ensures result.Err? ==> result.error == Outcome(lib, flip).value
    ensures result.Ok? ==>
      && fresh(result.value) && fresh(result.value.data) && result.value.fileIndex == fileIndex
      && (forall i :: 0 <= i < |result.value.images| ==> fresh(result.value.images[i]))
      && FirstLevelDecoded(result.value, lib, flip, mipmaps)
  {
    width, height := 0, 0;
    if !lib.created {
      return Err(ContextCreation), width, height;
    }
    if lib.bufferSet != Success {
      return Err(SetBuffer(lib.bufferSet)), width, height;
    }
    if lib.header != Success {
      return Err(ReadHeader(lib.header)), width, height;
    }
    width, height := lib.headerWidth, lib.headerHeight;
    var m := new MipmapImage(fileIndex, width, height, mipmaps);
    FirstLevelInside(m, lib.headerWidth, lib.headerHeight, mipmaps);
    assert m.data[..] == Zeros(m.data.Length);
    var failure := DecodeFirstLevel(m, m.images[0], lib, flip);
    if failure.Some? {
      return Err(failure.value), width, height;
    }
    LibraryRowsFit(lib);
    return Ok(m), width, height;
  }

  /** A mipmap image laid out for the header's dimensions whose first level holds the rows of
    * `lib`, padded. */
  ghost predicate FirstLevelDecoded(m: MipmapImage, lib: Library, flip: bool, mipmaps: bool)
    reads m, m.images, m.data
  {
    var l := FirstLevel(lib.headerWidth, lib.headerHeight);
    && m.Valid() && PaddedAs(m.images, Levels(lib.headerWidth, lib.headerHeight, mipmaps))
    && l.End() <= m.data.Length && lib.headerHeight >= 1 && RowsFit(lib.rows, l)
    && m.data[..] == Padded(DecodeRows(Zeros(m.data.Length), l, lib.rows, flip, FileWidth(lib)).buffer, l)
  }

  /** The failure decode reports once its header has been read: the first failing check, or
    * the loop status when it is not tolerated. */
  function Outcome(lib: Library, flip: bool): (r: Option<Failure>)
    requires lib.Valid()
  {
    if Checked(lib).Some? then Checked(lib)
    else if !Tolerated(LoopStatus(lib, flip)) then Some(Progressive(LoopStatus(lib, flip)))
    else None
  }

  /** The part of decode after the mipmap image is allocated: the size checks, the row loop,
    * the status check and the padding of the first level. */
  method DecodeFirstLevel(m: MipmapImage, first: Image, lib: Library, flip: bool) returns (failure: Option<Failure>)
    requires lib.Valid() && lib.created && lib.bufferSet == Success && lib.header == Success
    requires var l := FirstLevel(lib.headerWidth, lib.headerHeight);
      && first.data.start == 0 && first.data.size == l.End() <= m.data.Length && first.width == l.paddedWidth
    requires m.data[..] == Zeros(m.data.Length)
    modifies m.data
    ensures failure == Outcome(lib, flip)
    ensures failure.None? ==> var l := FirstLevel(lib.headerWidth, lib.headerHeight);
      m.data[..] == Padded(DecodeRows(Zeros(m.data.Length), l, lib.rows, flip, FileWidth(lib)).buffer, l)
  {
    if lib.sizeStatus != Success {
      return Some(DecodedSize(lib.sizeStatus));
    }
    var fileSize := lib.decodedSize;
    if fileSize > first.data.size {
      return Some(DoesNotFit(first.data.size, fileSize));
    }
    if lib.decodeInit != Success {
      return Some(DecodeInit(lib.decodeInit));
    }
    failure := DecodeChecked(m, first, lib, flip);
  }

  /** The part of decode after every check on the library's answers has passed: the row loop,
    * the status check and the padding of the first level. */
  method DecodeChecked(m: MipmapImage, first: Image, lib: Library, flip: bool) returns (failure: Option<Failure>)
    requires lib.Valid() && Checked(lib).None?
    requires var l := FirstLevel(lib.headerWidth, lib.headerHeight);
      && first.data.start == 0 && first.data.size == l.End() <= m.data.Length && first.width == l.paddedWidth
    requires m.data[..] == Zeros(m.data.Length)
    modifies m.data
    ensures failure == Outcome(lib, flip)
    ensures failure.None? ==> var l := FirstLevel(lib.headerWidth, lib.headerHeight);
      m.data[..] == Padded(DecodeRows(Zeros(m.data.Length), l, lib.rows, flip, FileWidth(lib)).buffer, l)
  {
    var l := FirstLevel(lib.headerWidth, lib.headerHeight);
    var fileWidth := FileWidth(lib);
    LibraryRowsFit(lib);
    var status := RowLoop(m.data, first, l, lib.rows, flip, fileWidth);
    LoopOutcome(lib, flip, Zeros(m.data.Length), status);
    if status != EndOfImage && status != IdatStream {
      return Some(Progressive(status));
    }
    AddPadding(m.data, l);
    return None;
  }

  /** Once every check has passed, the outcome of decode is that of the row loop, whatever
    * the buffer it writes into. */
  lemma LoopOutcome(lib: Library, flip: bool, s: seq<Byte>, status: Status)
    requires lib.Valid() && Checked(lib).None?
    requires FirstLevel(lib.headerWidth, lib.headerHeight).End() <= |s|
    requires RowsFit(lib.rows, FirstLevel(lib.headerWidth, lib.headerHeight))
    requires DecodeRows(s, FirstLevel(lib.headerWidth, lib.headerHeight), lib.rows, flip, FileWidth(lib)).status == status
    ensures Outcome(lib, flip) == if Tolerated(status) then None else Some(Progressive(status))
  {
    var l := FirstLevel(lib.headerWidth, lib.headerHeight);
    StatusIndependent(s, Zeros(l.End()), l, lib.rows, flip, FileWidth(lib));
  }

  /** The first image of a new mipmap image is the first level of its buffer. */
  lemma FirstLevelInside(m: MipmapImage, w: U32, h: U32, mipmaps: bool)
    requires m.Valid() && PaddedAs(m.images, Levels(w, h, mipmaps))
    ensures var l := FirstLevel(w, h);
      && m.images[0].data.start == 0 && m.images[0].data.size == l.End() <= m.data.Length
      && m.images[0].width == l.paddedWidth
  {
    OffsetsOrdered(m.images, 0, |m.images|);
  }

  /** The do-while loop of decode: row information, then the row decoded into its (flipped)
    * row of the first image, until a status other than 0. */
  method RowLoop(a: array<Byte>, first: Image, l: Level, rows: seq<RowStep>, flip: bool, fileWidth: nat)
    returns (status: Status)
    requires l.Valid() && l.End() <= a.Length && RowsFit(rows, l)
    requires first.data.start == l.start == 0 && first.width == l.paddedWidth
    requires |rows| >= 1 && (rows[|rows| - 1].info != Success || rows[|rows| - 1].decode != Success)
    modifies a
    ensures DecodeRows(old(a[..]), l, rows, flip, fileWidth) == Decoding(a[..], status)
  {
    ghost var before := a[..];
    var height := l.height;
    status := Success;
    var k := 0;
    while true
      invariant k < |rows|
      invariant DecodeRows(a[..], l, rows[k..], flip, fileWidth) == DecodeRows(before, l, rows, flip, fileWidth)
      decreases |rows| - k
    {
      var step := rows[k];
      status := step.info;
      if status != Success {
        break;
      }
      var row := if !flip then step.rowNum else height - step.rowNum - 1;
      assert row == FlipRow(flip, l.height, step.rowNum) && first.RowStart(row) == l.At(0, row);
      ghost var prior := a[..];
      status := DecodeRow(a, l, first.RowStart(row), step, fileWidth, row);
      if status != Success {
        break;
      }
      RowContinues(prior, l, rows[k..], flip, fileWidth);
      k := k + 1;
    }
  }

  /** A row that decodes with status 0 leaves the rest of the loop to the following rows. */
  lemma RowContinues(s: seq<Byte>, l: Level, rows: seq<RowStep>, flip: bool, fileWidth: nat)
    requires l.Valid() && l.End() <= |s| && RowsFit(rows, l) && |rows| > 1
    requires rows[0].info == Success && RowStatus(rows[0], fileWidth) == Success
    ensures DecodeRows(s, l, rows, flip, fileWidth)
      == DecodeRows(WriteRow(s, l, FlipRow(flip, l.height, rows[0].rowNum), rows[0].pixels), l, rows[1..], flip, fileWidth)
  {
  }

  /** A non-interlaced image streamed row by row: row i is reported i-th, every row decodes
    * into a buffer of fileWidth bytes, and the last row ends the image. */
  predicate Sequential(rows: seq<RowStep>, height: nat, fileWidth: nat)
  {
    && |rows| == height
    && forall i :: 0 <= i < |rows| ==>
         && rows[i].info == Success && rows[i].rowNum == i && |rows[i].pixels| <= fileWidth
         && rows[i].decode == if i == height - 1 then EndOfImage else Success
  }

  /** The real pixels of every row whose decoded row is j or later hold that row's bytes, and
    * every other pixel is as in s. */
  ghost predicate RowsDecoded(b: seq<Byte>, s: seq<Byte>, l: Level, rows: seq<RowStep>, flip: bool, j: nat)
    requires l.End() <= |b| && l.End() <= |s| && RowsFit(rows, l) && |rows| == l.height
  {
    forall x: nat, y: nat, c: nat {:trigger b[l.Index(x, y, c)]}
      | x < l.paddedWidth && y < l.paddedHeight && c < PixelBytes ::
      b[l.Index(x, y, c)]
      == if x < l.width && y < l.height && FlipRow(flip, l.height, y) >= j
         then rows[FlipRow(flip, l.height, y)].pixels[PixelBytes * x + c]
         else s[l.Index(x, y, c)]
  }

  /** Writing decoded row j into its row, on top of the rows after j, gives rows j and later. */
  lemma RowDecoded(b: seq<Byte>, s: seq<Byte>, l: Level, rows: seq<RowStep>, flip: bool, j: nat)
    requires l.Valid() && l.End() <= |s| && |b| == |s| && RowsFit(rows, l) && |rows| == l.height && j < |rows|
    requires var t := WriteRow(s, l, FlipRow(flip, l.height, j), rows[j].pixels);
      if j + 1 < |rows| then RowsDecoded(b, t, l, rows, flip, j + 1) else b == t
    ensures RowsDecoded(b, s, l, rows, flip, j)
  {
    var t := WriteRow(s, l, FlipRow(flip, l.height, j), rows[j].pixels);
    forall x: nat, y: nat, c: nat | x < l.paddedWidth && y < l.paddedHeight && c < PixelBytes
      ensures b[l.Index(x, y, c)]
        == if x < l.width && y < l.height && FlipRow(flip, l.height, y) >= j
           then rows[FlipRow(flip, l.height, y)].pixels[PixelBytes * x + c]
           else s[l.Index(x, y, c)]
    {
      WriteRowPixel(s, l, FlipRow(flip, l.height, j), rows[j].pixels, x, y, c);
      if y < l.height {
        FlipRowBijective(flip, l.height, y, j);
      }
    }
  }

  /** The loop over rows j, j + 1, ... of a sequential stream ends the image, and every real
    * pixel of a row whose decoded row is among them is that row's bytes. */
  lemma {:induction false} SequentialRows(s: seq<Byte>, l: Level, rows: seq<RowStep>, flip: bool, fileWidth: nat, j: nat)
    requires l.Valid() && l.End() <= |s| && RowsFit(rows, l) && Sequential(rows, l.height, fileWidth) && j < |rows|
    ensures DecodeRows(s, l, rows[j..], flip, fileWidth).status == EndOfImage
    ensures RowsDecoded(DecodeRows(s, l, rows[j..], flip, fileWidth).buffer, s, l, rows, flip, j)
    decreases |rows| - j
  {
    var t := WriteRow(s, l, FlipRow(flip, l.height, j), rows[j].pixels);
    var r := DecodeRows(s, l, rows[j..], flip, fileWidth);
    SequentialStep(s, l, rows, flip, fileWidth, j);
    if j + 1 < |rows| {
      SequentialRows(t, l, rows, flip, fileWidth, j + 1);
    }
    RowDecoded(r.buffer, s, l, rows, flip, j);
  }

  /** In a sequential stream, row j is written and the loop goes on with row j + 1, or ends
    * the image when row j is the last. */
  lemma SequentialStep(s: seq<Byte>, l: Level, rows: seq<RowStep>, flip: bool, fileWidth: nat, j: nat)
    requires l.Valid() && l.End() <= |s| && RowsFit(rows, l) && Sequential(rows, l.height, fileWidth) && j < |rows|
    ensures var t := WriteRow(s, l, FlipRow(flip, l.height, j), rows[j].pixels);
      DecodeRows(s, l, rows[j..], flip, fileWidth)
      == if j + 1 < |rows| then DecodeRows(t, l, rows[j + 1..], flip, fileWidth) else Decoding(t, EndOfImage)
  {
    assert rows[j..][0] == rows[j] && rows[j].info == Success && RowStatus(rows[j], fileWidth) == rows[j].decode;
    if j + 1 < |rows| {
      assert rows[j..][1..] == rows[j + 1..];
    }
  }

  /** For a sequential stream, decode succeeds and pixel (x, y) of the padded first level is
    * the decoded pixel its padding copies, taken from the row the flip maps it to. */
  lemma SequentialImage(lib: Library, flip: bool, n: nat, x: nat, y: nat, c: nat)
    requires lib.Valid() && Checked(lib) == None
    requires Sequential(lib.rows, lib.headerHeight, FileWidth(lib))
    requires var l := FirstLevel(lib.headerWidth, lib.headerHeight);
      l.End() <= n && x < l.paddedWidth && y < l.paddedHeight && c < PixelBytes
    ensures Outcome(lib, flip) == None
    ensures var l, w, h := FirstLevel(lib.headerWidth, lib.headerHeight), lib.headerWidth, lib.headerHeight;
      Padded(DecodeRows(Zeros(n), l, lib.rows, flip, FileWidth(lib)).buffer, l)[l.Index(x, y, c)]
      == lib.rows[FlipRow(flip, h, Border(y, h))].pixels[PixelBytes * Border(x, w) + c]
  {
    var l := FirstLevel(lib.headerWidth, lib.headerHeight);
    assert lib.rows[0..] == lib.rows;
    SequentialRows(Zeros(l.End()), l, lib.rows, flip, FileWidth(lib), 0);
    SequentialRows(Zeros(n), l, lib.rows, flip, FileWidth(lib), 0);
    PaddedPixel(DecodeRows(Zeros(n), l, lib.rows, flip, FileWidth(lib)).buffer, l, x, y, c);
  }

  /** When libspng computes the decoded size of 4 bytes per pixel, the size check of decode
    * passes and each row fits the loop's row width. */
  lemma ExactSizeFits(lib: Library)
    requires lib.header == Success && lib.headerHeight >= 1
    requires lib.decodedSize == PixelBytes * lib.headerWidth * lib.headerHeight
    ensures lib.decodedSize <= FirstLevelBytes(lib.headerWidth, lib.headerHeight)
    ensures FileWidth(lib) == PixelBytes * lib.headerWidth
  {
    RowBytesFit(lib.headerWidth, lib.headerHeight, NextDivisibleBy4(lib.headerWidth), NextDivisibleBy4(lib.headerHeight));
    DivModUnique(lib.decodedSize, lib.headerHeight, PixelBytes * lib.headerWidth, 0);
  }

  /** The real pixels fit the padded ones. */
  lemma RowBytesFit(w: nat, h: nat, pw: nat, ph: nat)
    requires w <= pw && h <= ph
    ensures PixelBytes * w * h <= PixelBytes * (pw * ph)
    ensures PixelBytes * w * h == (PixelBytes * w) * h
  {
    MulMonotone(w, pw, h);
    MulMonotone(h, ph, pw);
  }
}
