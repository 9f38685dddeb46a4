/**
 * The sprite-sheet-to-GIF exporter of plugins/gif_tool.py.
 *
 * A sheet is known only by its pixel size and a frame only by its crop box,
 * so the model is the integer arithmetic of the exporter: the duration
 * default, the frame size, the row-major list of crop boxes and the loop
 * count that are handed to the GIF encoder.
 */
module GifTool {
  import opened GridArith

  datatype Option<T> = None | Some(value: T)

  /** An uploaded sprite sheet, reduced to its width and height in pixels. */
  datatype Sheet = Sheet(width: nat, height: nat)

  /** A crop rectangle in sheet pixels; right and bottom are exclusive. */
  datatype Box = Box(left: int, top: int, right: int, bottom: int)

  /**
   * The arguments of the encoder's save call: the base frame, the frames
   * appended after it, the delay of every frame in milliseconds and the
   * loop count of the animation.
   */
  datatype Encoding = Encoding(first: Box, rest: seq<Box>, duration: int, loopCount: nat)
  {
    /** The animation's frames in playback order. */
    function Frames(): seq<Box> { [first] + rest }
  }

  /** The delay used when the caller gives none, or one that is not positive. */
  const DefaultDuration := 100

  /** GIF loop count (Netscape 2.0 application extension) meaning "repeat forever". */
  const LoopForever := 0

  /**
   * The loop count passed when the loop flag is clear. How the encoder plays
   * a count of 1 (once, or once more after the first pass) is outside the model.
   */
  const LoopOnceMore := 1

  /** The delay of every frame: the caller's value when it is positive, else the default. */
  function EffectiveDuration(duration: Option<int>): (d: int)
    ensures d >= 1
    ensures d == DefaultDuration || duration == Some(d)
    ensures duration.Some? && duration.value >= 1 ==> d == duration.value
  {
    if duration.None? || duration.value <= 0 then DefaultDuration else duration.value
  }

  /** The encoder's loop count for the "loop" check box. */
  function LoopCount(loop: bool): (n: nat)
    ensures n == LoopForever || n == LoopOnceMore
    ensures n == LoopForever <==> loop
  {
    if loop then LoopForever else LoopOnceMore
  }

  /**
   * The extent of one frame along an axis of the given length split into
   * the given number of parts; the remainder of the division is dropped.
   */
  function Span(extent: nat, parts: int): (s: nat)
    requires parts >= 1
    ensures parts * s <= extent < parts * (s + 1)
  {
    extent / parts
  }

  /** The crop box of the cell in row r, column c, for frames fw wide and fh high. */
  function Cell(r: int, c: int, fw: int, fh: int): Box
  {
    Box(c * fw, r * fh, c * fw + fw, r * fh + fh)
  }

  /** Pixel (x, y) lies in box b. */
  predicate Contains(b: Box, x: int, y: int)
  {
    b.left <= x < b.right && b.top <= y < b.bottom
  }

  /**
   * The boxes' ranges intersect on both axes; for non-empty boxes this means
   * they share a pixel, and a shared pixel always implies it (OverlapOfSharedPixel).
   */
  predicate Overlap(a: Box, b: Box)
  {
    a.left < b.right && b.left < a.right && a.top < b.bottom && b.top < a.bottom
  }

  /** A pixel lying in two boxes makes them overlap. */
  lemma OverlapOfSharedPixel(a: Box, b: Box, x: int, y: int)
    requires Contains(a, x, y) && Contains(b, x, y)
    ensures Overlap(a, b)
  {
  }

  /**
   * boxes is the slicing of sheet into rows by cols frames: one box per
   * cell, the box at index i being that of row i div cols and column
   * i mod cols.
   */
  predicate IsGrid(boxes: seq<Box>, sheet: Sheet, rows: int, cols: int)
    requires rows >= 1 && cols >= 1
  {
    && |boxes| == rows * cols
    && forall i :: 0 <= i < |boxes| ==>
         boxes[i] == Cell(i / cols, i % cols, Span(sheet.width, cols), Span(sheet.height, rows))
  }

  /** The nested row/column loop that collects the crop boxes of all cells. */
  method SliceGrid(sheet: Sheet, rows: int, cols: int) returns (boxes: seq<Box>)
    requires rows >= 1 && cols >= 1
    ensures IsGrid(boxes, sheet, rows, cols)
  {
    var frameWidth := sheet.width / cols;
    var frameHeight := sheet.height / rows;
    boxes := [];
    for r := 0 to rows
      invariant |boxes| == r * cols
      invariant forall i :: 0 <= i < |boxes| ==>
                  boxes[i] == Cell(i / cols, i % cols, frameWidth, frameHeight)
    {
      for c := 0 to cols
        invariant |boxes| == r * cols + c
        invariant forall i :: 0 <= i < |boxes| ==>
                    boxes[i] == Cell(i / cols, i % cols, frameWidth, frameHeight)
      {
        var left := c * frameWidth;
        var top := r * frameHeight;
        var right := left + frameWidth;
        var bottom := top + frameHeight;
        CellIndex(r, c, cols);
        boxes := boxes + [Box(left, top, right, bottom)];
      }
      assert r * cols + cols == (r + 1) * cols;
    }
  }

  /**
   * The exporter: no sheet gives no result; otherwise the sheet is sliced
   * and its frames, the effective duration and the loop count are handed to
   * the encoder, the first frame as base and the others appended.
   */
  method ProcessSpriteSheet(image: Option<Sheet>, rows: int, cols: int, duration: Option<int>, loop: bool)
    returns (out: Option<Encoding>)
    requires rows >= 1 && cols >= 1
    ensures out.None? <==> image.None?
    ensures out.Some? ==> IsGrid(out.value.Frames(), image.value, rows, cols)
    ensures out.Some? ==> out.value.duration == EffectiveDuration(duration)
    ensures out.Some? ==> out.value.loopCount == LoopCount(loop)
  {
    if image.None? {
      return None;
    }
    var delay := duration;
    if delay.None? || delay.value <= 0 {
      delay := Some(DefaultDuration);
    }
    var frames := SliceGrid(image.value, rows, cols);
    GridFrameCount(frames, image.value, rows, cols);
    assert [frames[0]] + frames[1..] == frames;
    out := Some(Encoding(frames[0], frames[1..], delay.value, if loop then LoopForever else LoopOnceMore));
  }

  /**
   * Row-major order: the cell in row r, column c is frame r * cols + c of
   * the animation.
   */
  lemma GridCellAt(boxes: seq<Box>, sheet: Sheet, rows: int, cols: int, r: int, c: int)
    requires rows >= 1 && cols >= 1 && IsGrid(boxes, sheet, rows, cols)
    requires 0 <= r < rows && 0 <= c < cols
    ensures 0 <= r * cols + c < |boxes|
    ensures boxes[r * cols + c] == Cell(r, c, Span(sheet.width, cols), Span(sheet.height, rows))
  {
    CellIndexBound(r, c, rows, cols);
    CellIndex(r, c, cols);
  }

  /**
   * Every frame is exactly Span(width, cols) by Span(height, rows) pixels
   * and lies inside the part of the sheet the grid covers, which lies
   * inside the sheet.
   */
  lemma GridBoxInside(boxes: seq<Box>, sheet: Sheet, rows: int, cols: int, i: int)
    requires rows >= 1 && cols >= 1 && IsGrid(boxes, sheet, rows, cols)
    requires 0 <= i < |boxes|
    ensures boxes[i].right - boxes[i].left == Span(sheet.width, cols)
    ensures boxes[i].bottom - boxes[i].top == Span(sheet.height, rows)
    ensures 0 <= boxes[i].left && boxes[i].right <= cols * Span(sheet.width, cols) <= sheet.width
    ensures 0 <= boxes[i].top && boxes[i].bottom <= rows * Span(sheet.height, rows) <= sheet.height
  {
    var fw, fh := Span(sheet.width, cols), Span(sheet.height, rows);
    RowBound(i, rows, cols);
    var r, c := i / cols, i % cols;
    MulMonotone(0, c, fw);
    MulMonotone(c + 1, cols, fw);
    MulMonotone(0, r, fh);
    MulMonotone(r + 1, rows, fh);
  }

  /**
   * Frames of two different cells share no pixel; zero-width or zero-height
   * frames (more columns than pixel columns, or more rows than pixel lines)
   * contain no pixel at all.
   */
  lemma GridDisjoint(boxes: seq<Box>, sheet: Sheet, rows: int, cols: int, i: int, j: int)
    requires rows >= 1 && cols >= 1 && IsGrid(boxes, sheet, rows, cols)
    requires 0 <= i < |boxes| && 0 <= j < |boxes| && i != j
    ensures !Overlap(boxes[i], boxes[j])
  {
    var fw, fh := Span(sheet.width, cols), Span(sheet.height, rows);
    var ri, ci, rj, cj := i / cols, i % cols, j / cols, j % cols;
    assert boxes[i] == Cell(ri, ci, fw, fh) && boxes[j] == Cell(rj, cj, fw, fh);
    DistinctCells(i, j, cols);
    if ri < rj {
      MulMonotone(ri + 1, rj, fh);
    } else if rj < ri {
      MulMonotone(rj + 1, ri, fh);
    } else if ci < cj {
      MulMonotone(ci + 1, cj, fw);
    } else {
      MulMonotone(cj + 1, ci, fw);
    }
  }

  /**
   * Playback order is reading order: a later frame lies on a lower row, or
   * on the same row further right.
   */
  lemma GridRowMajor(boxes: seq<Box>, sheet: Sheet, rows: int, cols: int, i: int, j: int)
    requires rows >= 1 && cols >= 1 && IsGrid(boxes, sheet, rows, cols)
    requires 0 <= i < j < |boxes|
    requires Span(sheet.width, cols) > 0 && Span(sheet.height, rows) > 0
    ensures boxes[i].top < boxes[j].top
         || (boxes[i].top == boxes[j].top && boxes[i].left < boxes[j].left)
  {
    var fw, fh := Span(sheet.width, cols), Span(sheet.height, rows);
    var ri, ci, rj, cj := i / cols, i % cols, j / cols, j % cols;
    IndexOrder(i, j, cols);
    if ri < rj {
      MulMonotone(ri + 1, rj, fh);
    } else {
      MulMonotone(ci + 1, cj, fw);
    }
  }

  /**
   * Every pixel of the covered part of the sheet, the first
   * cols * Span(width, cols) columns and rows * Span(height, rows) lines,
   * lies in the frame of its cell.
   */
  lemma GridCovers(boxes: seq<Box>, sheet: Sheet, rows: int, cols: int, x: int, y: int)
    requires rows >= 1 && cols >= 1 && IsGrid(boxes, sheet, rows, cols)
    requires 0 <= x < cols * Span(sheet.width, cols)
    requires 0 <= y < rows * Span(sheet.height, rows)
    ensures Span(sheet.width, cols) > 0 && Span(sheet.height, rows) > 0
    ensures var k := (y / Span(sheet.height, rows)) * cols + x / Span(sheet.width, cols);
            0 <= k < |boxes| && Contains(boxes[k], x, y)
  {
    var fw, fh := Span(sheet.width, cols), Span(sheet.height, rows);
    PositiveFactor(x, cols, fw);
    PositiveFactor(y, rows, fh);
    RowBound(x, cols, fw);
    RowBound(y, rows, fh);
    DivBounds(x, fw);
    DivBounds(y, fh);
    GridCellAt(boxes, sheet, rows, cols, y / fh, x / fw);
  }

  /**
   * The remainder pixels of the divisions, right of the last column or
   * below the last row of frames, are in no frame.
   */
  lemma GridDropsLeftover(boxes: seq<Box>, sheet: Sheet, rows: int, cols: int, x: int, y: int)
    requires rows >= 1 && cols >= 1 && IsGrid(boxes, sheet, rows, cols)
    requires x >= cols * Span(sheet.width, cols) || y >= rows * Span(sheet.height, rows)
    ensures forall i :: 0 <= i < |boxes| ==> !Contains(boxes[i], x, y)
  {
    forall i | 0 <= i < |boxes|
      ensures !Contains(boxes[i], x, y)
    {
      GridBoxInside(boxes, sheet, rows, cols, i);
    }
  }

  /** The sheet is cut into exactly rows * cols frames. */
  lemma GridFrameCount(boxes: seq<Box>, sheet: Sheet, rows: int, cols: int)
    requires rows >= 1 && cols >= 1 && IsGrid(boxes, sheet, rows, cols)
    ensures |boxes| == rows * cols >= 1
  {
    CellIndexBound(0, 0, rows, cols);
  }
}
