/**
 * Index arithmetic of the 4x4 pixel-block layout: a level of padded width w and height h
 * (both multiples of 4) is stored block row by block row, block by block, each block as
 * its 4 rows of 4 pixels.
 */
module BlockLayout {
  import opened Arithmetic

  const BlockSide: nat := 4
  const BlockPixels: nat := 16

  /** The pixel index (x + y*w) that position j of the block layout holds. */
  function SourcePixel(w: nat, j: nat): (r: nat)
    requires w > 0 && w % BlockSide == 0
  {
    var block := j / BlockPixels;
    var row := j % BlockPixels / BlockSide;
    var column := j % BlockSide;
    var blocksPerRow := w / BlockSide;
    var x := BlockSide * (block % blocksPerRow) + column;
    var y := BlockSide * (block / blocksPerRow) + row;
    x + y * w
  }

  /** The position of pixel (x, y) in the block layout. */
  function BlockIndex(w: nat, x: nat, y: nat): (r: nat)
  {
    BlockPixels * ((y / BlockSide) * (w / BlockSide) + x / BlockSide) + BlockSide * (y % BlockSide) + x % BlockSide
  }

  /** The position reached after `yb` block rows, `xb` blocks and `oy` rows of a block. */
  function Cursor(w: nat, yb: nat, xb: nat, oy: nat): (r: nat)
  {
    BlockPixels * (yb * (w / BlockSide) + xb) + BlockSide * oy
  }

  /** Positions of one block row of 4 pixels: they hold the pixels of that row segment. */
  lemma SourcePixelAtCursor(w: nat, yb: nat, xb: nat, oy: nat, c: nat)
    requires w > 0 && w % BlockSide == 0 && xb < w / BlockSide && oy < BlockSide && c < BlockSide
    ensures SourcePixel(w, Cursor(w, yb, xb, oy) + c) == (BlockSide * xb + c) + (BlockSide * yb + oy) * w
  {
    var wb := w / BlockSide;
    var block := yb * wb + xb;
    var j := Cursor(w, yb, xb, oy) + c;
    DivModUnique(j, BlockPixels, block, BlockSide * oy + c);
    DivModUnique(BlockSide * oy + c, BlockSide, oy, c);
    DivModUnique(j, BlockSide, BlockSide * block + oy, c);
    DivModUnique(block, wb, yb, xb);
  }

  /** The cursor visits the positions in order and, at the end, has filled w*h of them. */
  lemma CursorSteps(w: nat, h: nat, yb: nat, xb: nat, oy: nat)
    requires w % BlockSide == 0
    ensures Cursor(w, yb, xb, oy) + BlockSide == Cursor(w, yb, xb, oy + 1)
    ensures Cursor(w, yb, xb, BlockSide) == Cursor(w, yb, xb + 1, 0)
    ensures Cursor(w, yb, w / BlockSide, 0) == Cursor(w, yb + 1, 0, 0)
    ensures h % BlockSide == 0 ==> Cursor(w, h / BlockSide, 0, 0) == w * h
  {
    if h % BlockSide == 0 {
      var wb, hb := w / BlockSide, h / BlockSide;
      assert w * h == BlockPixels * (hb * wb) by {
        assert w == BlockSide * wb && h == BlockSide * hb;
      }
    }
  }

  /** Every position of a complete block row lies inside the level. */
  lemma CursorBounded(w: nat, h: nat, yb: nat, xb: nat, oy: nat, c: nat)
    requires w % BlockSide == 0 && h % BlockSide == 0
    requires xb < w / BlockSide && yb < h / BlockSide && oy < BlockSide && c < BlockSide
    ensures Cursor(w, yb, xb, oy) + c < w * h
  {
    var wb, hb := w / BlockSide, h / BlockSide;
    MulMonotone(yb + 1, hb, wb);
    assert yb * wb + xb < hb * wb by {
      assert (yb + 1) * wb == yb * wb + wb;
    }
    CursorSteps(w, h, hb, 0, 0);
  }

  /** A position of the level, split into block row, block, row of the block and pixel. */
  lemma Decompose(w: nat, h: nat, j: nat) returns (yb: nat, xb: nat, oy: nat, c: nat)
    requires w > 0 && w % BlockSide == 0 && h % BlockSide == 0 && j < w * h
    ensures xb < w / BlockSide && yb < h / BlockSide && oy < BlockSide && c < BlockSide
    ensures j == Cursor(w, yb, xb, oy) + c
    ensures SourcePixel(w, j) == (BlockSide * xb + c) + (BlockSide * yb + oy) * w
  {
    var wb, hb := w / BlockSide, h / BlockSide;
    var block, r := j / BlockPixels, j % BlockPixels;
    CursorSteps(w, h, hb, 0, 0);
    assert block < hb * wb;
    QuotientBounded(block, wb, hb);
    yb, xb := block / wb, block % wb;
    oy, c := r / BlockSide, r % BlockSide;
    assert block == yb * wb + xb;
    DivModUnique(j, BlockSide, BlockSide * block + oy, c);
  }

  /** Every position below w*h holds a pixel of the level, and that pixel's block position
    * is the position itself. */
  lemma SourcePixelInverse(w: nat, h: nat, j: nat) returns (x: nat, y: nat)
    requires w > 0 && w % BlockSide == 0 && h % BlockSide == 0 && j < w * h
    ensures x < w && y < h && SourcePixel(w, j) == x + y * w && SourcePixel(w, j) < w * h
    ensures BlockIndex(w, x, y) == j
  {
    var yb, xb, oy, c := Decompose(w, h, j);
    x, y := BlockSide * xb + c, BlockSide * yb + oy;
    RowMajorBounded(x, y, w, h);
    DivModUnique(x, BlockSide, xb, c);
    DivModUnique(y, BlockSide, yb, oy);
  }

  /** A pixel of the level lands at its block position, and that position holds it: with
    * SourcePixelInverse, the layout is a bijection between the w*h pixels and the first w*h
    * positions. */
  lemma BlockIndexInverse(w: nat, h: nat, x: nat, y: nat)
    requires w % BlockSide == 0 && h % BlockSide == 0 && x < w && y < h
    ensures BlockIndex(w, x, y) < w * h
    ensures SourcePixel(w, BlockIndex(w, x, y)) == x + y * w
  {
    var xb, yb, oy, c := x / BlockSide, y / BlockSide, y % BlockSide, x % BlockSide;
    QuotientBounded(x, BlockSide, w / BlockSide);
    QuotientBounded(y, BlockSide, h / BlockSide);
    assert BlockIndex(w, x, y) == Cursor(w, yb, xb, oy) + c;
    SourcePixelAtCursor(w, yb, xb, oy, c);
    CursorBounded(w, h, yb, xb, oy, c);
  }
}
