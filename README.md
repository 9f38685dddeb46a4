# Sprite sheet to GIF: the grid slicer

This project models the exporter of the sprite-sheet tool, `process_sprite_sheet`
in `plugins/gif_tool.py`. The user uploads a sprite sheet and chooses a number of
rows and columns, a per-frame duration in milliseconds and a loop flag. The exporter
cuts the sheet into a grid of equally sized frames and hands them, in row-major
order, to the GIF encoder.

The sheet is represented only by its width and height (`Sheet`), and a frame only by
its crop box (`Box`: left, top, exclusive right, exclusive bottom). The model is the
integer arithmetic the exporter performs:

- a missing sheet yields no result;
- a missing or non-positive duration becomes 100 ms;
- the frame size is `width div cols` by `height div rows`;
- the nested row/column loop produces one box per cell, rows outer and columns inner;
- the loop flag becomes GIF loop count 0 ("repeat forever", the Netscape 2.0
  application extension's convention) or 1 (the value the code passes when the flag is clear; how the encoder plays
  that count is the library's business);
- the encoder receives the first frame as base and the remaining frames as
  appended images.

`GridArith` (grid_arith.dfy) holds the integer facts the proofs need. `GifTool`
(gif_tool.dfy) holds the model. The slicing is specified once, by the predicate
`IsGrid`: there are `rows * cols` boxes, and the box at index `i` is the cell in row
`i div cols`, column `i mod cols`. The method `SliceGrid` is proved to produce such a
sequence. The lemmas then state what any such sequence satisfies: where each cell
sits, its size and bounds, disjointness, reading order, coverage, and the dropped
remainder pixels.

Preconditions: `rows >= 1` and `cols >= 1`. The form's number fields have minimum 1
(`plugins/gif_tool.py:88-89`), and the code divides by both at lines 20-21. The
sheet's size is a pair of naturals. With non-negative operands and a positive
divisor, Dafny's `/` agrees with the floor division `//` the code uses.

## Model

| member | source | states |
|---|---|---|
| GifTool.ProcessSpriteSheet | plugins/gif_tool.py:7-51 | no result exactly when the sheet is absent; otherwise the encoder gets the base frame followed by the appended frames, which together are the full row-major grid of the sheet, with the effective duration and the loop count of the flag |
| GifTool.SliceGrid | plugins/gif_tool.py:19-31 | the nested loop's list has rows * cols boxes, and box i is the crop box of row i div cols, column i mod cols, for frames width div cols by height div rows |
| GifTool.EffectiveDuration | plugins/gif_tool.py:15-17 | the duration used is at least 1 ms; it is the caller's value when that value is positive, and otherwise the 100 ms default |
| GifTool.LoopCount | plugins/gif_tool.py:50 | the loop count is 0 (repeat forever) exactly when the loop flag is set, and 1 otherwise |
| GifTool.Span | plugins/gif_tool.py:19-21 | the frame extent s along an axis satisfies parts * s <= extent < parts * (s + 1): the largest size that fits parts times, with the remainder dropped |
| GifTool.GridFrameCount | plugins/gif_tool.py:23-31 | the sheet is cut into exactly rows * cols frames, and there is always at least one, so the base frame exists |
| GifTool.GridCellAt | plugins/gif_tool.py:24-31 | row-major order: the cell in row r, column c is frame r * cols + c, with box (c·fw, r·fh, c·fw + fw, r·fh + fh) |
| GifTool.GridBoxInside | plugins/gif_tool.py:20-30 | every frame is exactly fw by fh pixels and lies inside the covered region [0, cols·fw) × [0, rows·fh), which lies inside the sheet |
| GifTool.GridDisjoint | plugins/gif_tool.py:24-30 | frames of two different cells share no pixel, including the zero-area frames of an oversized grid |
| GifTool.GridRowMajor | plugins/gif_tool.py:24-31 | a later frame lies on a lower row, or on the same row further right, when fw and fh are positive |
| GifTool.GridCovers | plugins/gif_tool.py:20-30 | every pixel of the covered region lies in the frame of its own cell, at index (y div fh)·cols + x div fw |
| GifTool.GridDropsLeftover | plugins/gif_tool.py:19-21 | the remainder pixels right of the last frame column or below the last frame row are in no frame |

## Left out

- Pixel data: the sheet's `size` and `crop` come from the image library. A sheet is its two dimensions, and a crop is the box it would cut (`plugins/gif_tool.py:19`, `30`).
- Writing the file: creating the output directory, building the timestamped file name, the encoder's save call itself and the log line (`plugins/gif_tool.py:35-53`) are file-system, clock and console effects. The model returns the encoder's arguments (`Encoding`) in place of the returned path. The same-second file-name collision is therefore not modelled.
- Encoder failure on zero-area frames: when `cols > width` or `rows > height` the boxes have zero width or height. The model describes them faithfully, but the encoder's failure on them happens inside the library and is not modelled.
- Grid counts: rows and cols are whole numbers of at least 1, as the form's fields supply them (precision 0, minimum 1), so the `int()` conversions at `plugins/gif_tool.py:20-21` and `24-25` do not change them. The `TypeError` that an empty field raises (line 20 for cols, line 21 for rows), and the division by zero a count of 0 would cause at those lines, are not modelled.
- Duration type: the duration is an optional integer, as the form's number field with precision 0 supplies. The `int(duration)` conversion at line 49 is then the identity. Fractional durations are not modelled.
- `sync_duration_from_fps` and `sync_fps_from_duration` (`plugins/gif_tool.py:58-71`): floating-point conversions between frame rate and interval, returning the UI toolkit's "no update" value. They are not consumed by the exporter.
- `create_tab` (`plugins/gif_tool.py:75-143`): UI layout and event wiring. It serves here only as evidence for the `rows, cols >= 1` preconditions.
