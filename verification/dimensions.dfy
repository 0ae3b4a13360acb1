/** The fixed sizes of the board and of its picture (src/gol/controller.rs, lines 8-12). */
module Dimensions {
  const GridRows: nat := 64
  const GridCols: nat := 64
  /** Each square is drawn as a block of CellPixels × CellPixels pixels. */
  const CellPixels: nat := 10
  /** `GRID_ROWS * GRID_CELL_PIXELS` and `GRID_COLS * GRID_CELL_PIXELS`, written out. */
  const PixelRows: nat := 640
  const PixelCols: nat := 640
  /** Bytes in the frame: four (R, G, B, A) per pixel. */
  const FrameLength: nat := 1638400

  /** The written-out sizes are the products the window size is built from. */
  lemma PictureSize()
    ensures PixelRows == GridRows * CellPixels && PixelCols == GridCols * CellPixels
    ensures FrameLength == PixelRows * PixelCols * 4
  {
  }
}
