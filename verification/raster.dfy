/**
 * The picture of the board: what each byte of the RGBA8 frame must hold, and
 * the index arithmetic of the iterator chain that picks the rows of pixels of
 * one square (src/gol/controller.rs, `display`).
 */
module Raster {
  import opened Cells
  import opened Grids
  import opened Dimensions
  import Arith

  newtype byte = b: int | 0 <= b < 256

  /** `chunks_exact_mut(4 * GRID_CELL_PIXELS)`: a chunk is one pixel row of one square. */
  const ChunkBytes: nat := 40
  const ChunkCount: nat := 40960

  /** A chunk is the four bytes of each of CellPixels pixels, and the frame is a whole number of chunks. */
  lemma ChunkSize()
    ensures ChunkBytes == 4 * CellPixels && ChunkCount * ChunkBytes == FrameLength
  {
  }

  /** The colour of a living square, channel by channel: R, G, B, A. */
  const Red: seq<byte> := [255, 0, 0, 255]

  // ---------------------------------------------------------------------
  // The iterator chain, on chunk numbers
  // ---------------------------------------------------------------------

  /** The chunk numbers `lo, lo + 1, ..., hi - 1`. */
  function Range(lo: nat, hi: nat): seq<nat>
  {
    seq(if lo <= hi then hi - lo else 0, j => lo + j)
  }

  /** `skip(n)`: everything after the first `n` elements, or nothing when there are fewer. */
  function Skip(s: seq<nat>, n: nat): (r: seq<nat>)
    ensures |r| == if n <= |s| then |s| - n else 0
    ensures forall i :: 0 <= i < |r| ==> r[i] == s[n + i]
    ensures forall x :: x in r ==> x in s
  {
    if n <= |s| then s[n..] else []
  }

  /** `take(n)`: the first `n` elements, or all of them when there are fewer. */
  function Take(s: seq<nat>, n: nat): (r: seq<nat>)
    ensures |r| == if n <= |s| then n else |s|
    ensures forall i :: 0 <= i < |r| ==> r[i] == s[i]
    ensures forall x :: x in r ==> x in s
  {
    if n <= |s| then s[..n] else s
  }

  /** `step_by(step)`: the first element, then every `step`-th after it. */
  function StepBy(s: seq<nat>, step: nat): (r: seq<nat>)
    requires 1 <= step
    ensures |r| <= |s|
    ensures s != [] ==> 0 < |r| && r[0] == s[0]
    ensures forall x :: x in r ==> x in s
    decreases |s|
  {
    if s == [] then [] else [s[0]] + StepBy(Skip(s, step), step)
  }

  /**
   * `chunks_exact_mut(40).skip(grid_col).step_by(GRID_COLS)
   *  .skip(GRID_CELL_PIXELS * grid_row).take(GRID_CELL_PIXELS)`, as chunk numbers.
   */
  function BlockChunks(gridRow: nat, gridCol: nat): (chunks: seq<nat>)
    ensures |chunks| <= CellPixels
    ensures forall k :: k in chunks ==> k < ChunkCount
  {
    var frameChunks := Range(0, ChunkCount);
    assert forall k :: k in frameChunks ==> k < ChunkCount;
    Take(Skip(StepBy(Skip(frameChunks, gridCol), GridCols), CellPixels * gridRow), CellPixels)
  }

  lemma SkipRange(lo: nat, hi: nat, n: nat)
    requires lo + n <= hi
    ensures Skip(Range(lo, hi), n) == Range(lo + n, hi)
  {
  }

  /** `step_by(GridCols)` keeps element `GridCols * j` as its `j`-th element ... */
  lemma {:induction false} StepByColsAt(s: seq<nat>, j: nat)
    requires GridCols * j < |s|
    ensures j < |StepBy(s, GridCols)| && StepBy(s, GridCols)[j] == s[GridCols * j]
    decreases j
  {
    if 0 < j {
      var rest := s[GridCols..];
      assert Skip(s, GridCols) == rest;
      StepByColsAt(rest, j - 1);
    }
  }

  /** ... and has no element beyond the last such index. */
  lemma {:induction false} StepByColsCount(s: seq<nat>, j: nat)
    requires j < |StepBy(s, GridCols)|
    ensures GridCols * j < |s|
    decreases j
  {
    if 0 < j && GridCols <= |s| {
      var rest := s[GridCols..];
      assert Skip(s, GridCols) == rest;
      StepByColsCount(rest, j - 1);
    }
  }

  /**
   * The chain picks, for an in-range square `(r, c)`, exactly its ten pixel
   * rows: chunk `c + GridCols * (CellPixels * r + t)` for `t` from 0 to 9.
   */
  lemma BlockChunksAt(r: nat, c: nat)
    requires r < GridRows && c < GridCols
    ensures |BlockChunks(r, c)| == CellPixels
    ensures forall t :: 0 <= t < CellPixels ==> BlockChunks(r, c)[t] == c + GridCols * (CellPixels * r + t)
  {
    var chunks := Range(c, ChunkCount);
    BlockChunksSlice(r, c);
    forall t | 0 <= t < CellPixels ensures BlockChunks(r, c)[t] == c + GridCols * (CellPixels * r + t) {
      StepByColsAt(chunks, CellPixels * r + t);
    }
  }

  /** A block's chunks are `CellPixels` consecutive picks of the column's stride. */
  lemma BlockChunksSlice(r: nat, c: nat)
    requires r < GridRows && c < GridCols
    ensures |StepBy(Range(c, ChunkCount), GridCols)| == PixelRows
    ensures BlockChunks(r, c) == StepBy(Range(c, ChunkCount), GridCols)[CellPixels * r..][..CellPixels]
  {
    SkipRange(0, ChunkCount, c);
    StridedLength(c);
  }

  lemma StridedLength(c: nat)
    requires c < GridCols
    ensures |StepBy(Range(c, ChunkCount), GridCols)| == PixelRows
  {
    assert PixelRows == 640 && GridCols == 64 && ChunkCount == 40960;
    var chunks := Range(c, ChunkCount);
    StepByColsAt(chunks, 639);
    if 640 < |StepBy(chunks, GridCols)| {
      StepByColsCount(chunks, 640);
    }
  }

  // ---------------------------------------------------------------------
  // The frame the display leaves
  // ---------------------------------------------------------------------

  /** The square whose block holds frame byte `i`: pixel `i / 4`, by its pixel row and column. */
  function SquareOfByte(i: nat): (x: Coord)
    requires i < FrameLength
    ensures x.0 < GridRows && x.1 < GridCols
  {
    var pixel := i / 4;
    ((pixel / PixelCols) / CellPixels, (pixel % PixelCols) / CellPixels)
  }

  /**
   * Byte `i` of the frame: the channel `i % 4` of Red where the pixel lies in
   * the block of a living square, and 0x00 (alpha included) elsewhere.
   */
  function FrameByte(cells: seq<Cell>, i: nat): byte
    requires |cells| == GridRows * GridCols && i < FrameLength
  {
    if cells[Offset(GridRows, GridCols, SquareOfByte(i))].Living() then Red[i % 4] else 0
  }

  /** The whole frame for `cells`. */
  function Rendered(cells: seq<Cell>): (frame: seq<byte>)
    requires |cells| == GridRows * GridCols
    ensures |frame| == FrameLength
  {
    seq(FrameLength, i requires 0 <= i < FrameLength => FrameByte(cells, i))
  }

  /**
   * Channel `ch` of pixel `(py, px)` is channel `ch` of Red when the square
   * `(py / 10, px / 10)`, whose 10×10 block holds the pixel, is living, and
   * 0x00 otherwise.
   */
  lemma PixelColour(cells: seq<Cell>, py: nat, px: nat, ch: nat)
    requires |cells| == GridRows * GridCols && py < PixelRows && px < PixelCols && ch < 4
    ensures 4 * (py * PixelCols + px) + ch < FrameLength
    ensures Rendered(cells)[4 * (py * PixelCols + px) + ch] ==
              if cells[Offset(GridRows, GridCols, (py / CellPixels, px / CellPixels))].Living() then Red[ch] else 0
  {
    var pixel := py * PixelCols + px;
    Arith.IndexInBounds(py, px, PixelRows, PixelCols);
    Arith.DivModOf(pixel, PixelCols, py, px);
    Arith.DivModOf(4 * pixel + ch, 4, pixel, ch);
  }

  /** The square of a byte, read off its chunk number. */
  lemma SquareOfChunk(i: nat)
    requires i < FrameLength
    ensures SquareOfByte(i) == ((i / ChunkBytes) / GridCols / CellPixels, (i / ChunkBytes) % GridCols)
  {
    var pixel := i / 4;
    var k := i / ChunkBytes;
    assert k == pixel / CellPixels;
    assert (pixel / PixelCols) / CellPixels == k / GridCols / CellPixels;
    assert (pixel % PixelCols) / CellPixels == k % GridCols;
  }

  /** Byte `i` lies in chunk `c + GridCols * (CellPixels * r + t)` for some `t < t1`. */
  predicate InChunks(i: nat, r: nat, c: nat, t1: nat)
  {
    (i / ChunkBytes) % GridCols == c && CellPixels * r <= (i / ChunkBytes) / GridCols < CellPixels * r + t1
  }

  /** The ten chunks the chain picks for `(r, c)` are exactly the bytes of that square's block. */
  lemma BlockIsChunks(i: nat, r: nat, c: nat)
    requires i < FrameLength && r < GridRows && c < GridCols
    ensures SquareOfByte(i) == (r, c) <==> InChunks(i, r, c, CellPixels)
  {
    SquareOfChunk(i);
  }

  /** Chunk `k` lies inside the frame and starts on a pixel boundary. */
  lemma ChunkStart(k: nat)
    requires k < ChunkCount
    ensures k * ChunkBytes + ChunkBytes <= FrameLength && k * ChunkBytes % 4 == 0
  {
    assert ChunkBytes == 40 && ChunkCount == 40960 && FrameLength == 1638400;
    assert k * ChunkBytes == 4 * (10 * k);
  }

  /** Painting chunk `k = c + GridCols * (CellPixels * r + t)` extends the chunks painted so far by one. */
  lemma NextChunk(i: nat, r: nat, c: nat, t: nat, k: nat)
    requires i < FrameLength && r < GridRows && c < GridCols && t < CellPixels
    requires k == c + GridCols * (CellPixels * r + t)
    ensures k < ChunkCount
    ensures InChunks(i, r, c, t + 1) <==> InChunks(i, r, c, t) || k * ChunkBytes <= i < k * ChunkBytes + ChunkBytes
  {
    var q := i / ChunkBytes;
    assert q == k <==> k * ChunkBytes <= i < k * ChunkBytes + ChunkBytes;
    if q % GridCols == c && q / GridCols == CellPixels * r + t {
      assert q == k;
    }
    if q == k {
      Arith.DivModOf(q, GridCols, CellPixels * r + t, c);
    }
  }

  /** `f` is `base` with the first `t` of the ten chunks of square `(r, c)` painted Red. */
  ghost predicate PaintedUpTo(f: seq<byte>, base: seq<byte>, r: nat, c: nat, t: nat)
  {
    |f| == FrameLength && |base| == FrameLength &&
    forall i :: 0 <= i < FrameLength ==> f[i] == if InChunks(i, r, c, t) then Red[i % 4] else base[i]
  }

  /** Painting the next chunk of the square moves `PaintedUpTo` on by one chunk. */
  lemma ChunkPainted(before: seq<byte>, after: seq<byte>, base: seq<byte>, r: nat, c: nat, t: nat, k: nat)
    requires r < GridRows && c < GridCols && t < CellPixels && k == c + GridCols * (CellPixels * r + t)
    requires PaintedUpTo(before, base, r, c, t) && |after| == FrameLength
    requires forall i :: 0 <= i < FrameLength ==>
               after[i] == if k * ChunkBytes <= i < k * ChunkBytes + ChunkBytes then Red[i % 4] else before[i]
    ensures PaintedUpTo(after, base, r, c, t + 1)
  {
    forall i | 0 <= i < FrameLength
      ensures after[i] == if InChunks(i, r, c, t + 1) then Red[i % 4] else base[i]
    {
      NextChunk(i, r, c, t, k);
    }
  }

  /** Once all ten chunks of the square `(r, c)` are painted, exactly its block is Red. */
  lemma BlockPainted(f: seq<byte>, base: seq<byte>, r: nat, c: nat)
    requires r < GridRows && c < GridCols && PaintedUpTo(f, base, r, c, CellPixels)
    ensures forall i :: 0 <= i < FrameLength ==> f[i] == if SquareOfByte(i) == (r, c) then Red[i % 4] else base[i]
  {
    forall i | 0 <= i < FrameLength
      ensures f[i] == if SquareOfByte(i) == (r, c) then Red[i % 4] else base[i]
    {
      BlockIsChunks(i, r, c);
    }
  }

  /**
   * The frame after the display loop has handled the squares before offset
   * `n`: Red over the blocks of those that are living, 0x00 elsewhere.
   */
  ghost function Painted(cells: seq<Cell>, n: nat, i: nat): byte
    requires |cells| == GridRows * GridCols && i < FrameLength
  {
    var k := Offset(GridRows, GridCols, SquareOfByte(i));
    if k < n && cells[k].Living() then Red[i % 4] else 0
  }

  // ---------------------------------------------------------------------
  // Writing the frame
  // ---------------------------------------------------------------------

  /** `fill(value)` over the `len` bytes from `start`. */
  method FillBytes(frame: array<byte>, start: nat, len: nat, value: byte)
    requires start + len <= frame.Length
    modifies frame
    ensures forall i :: 0 <= i < frame.Length ==>
              frame[i] == if start <= i < start + len then value else old(frame[i])
  {
    var j := 0;
    while j < len
      invariant j <= len
      invariant forall i :: 0 <= i < frame.Length ==>
                  frame[i] == if start <= i < start + j then value else old(frame[i])
    {
      frame[start + j] := value;
      j := j + 1;
    }
  }

  /**
   * `row_pixels.iter_mut().skip(offset).step_by(4)` over the chunk from
   * `start`: the channel `offset` of each of its ten pixels becomes `value`.
   */
  method FillChannel(frame: array<byte>, start: nat, offset: nat, value: byte)
    requires start + ChunkBytes <= frame.Length && offset < 4
    modifies frame
    ensures forall i :: 0 <= i < frame.Length ==>
              frame[i] == if start <= i < start + ChunkBytes && (i - start) % 4 == offset then value else old(frame[i])
  {
    var j := offset;
    while j < ChunkBytes
      invariant offset <= j < ChunkBytes + 4 && j % 4 == offset
      invariant forall i :: 0 <= i < frame.Length ==>
                  frame[i] == if start <= i < start + j && (i - start) % 4 == offset then value else old(frame[i])
    {
      forall d | j <= d < j + 4
        ensures d % 4 == offset <==> d == j
      {
        Arith.ModStep(d, j, offset);
      }
      frame[start + j] := value;
      j := j + 4;
    }
  }

  /**
   * The body of the display loop for one chunk: fill it with 0xFF, then write
   * the R, G, B and A channels of every pixel with Red's.
   */
  method PaintChunk(frame: array<byte>, start: nat)
    requires start + ChunkBytes <= frame.Length && start % 4 == 0
    modifies frame
    ensures forall i :: 0 <= i < frame.Length ==>
              frame[i] == if start <= i < start + ChunkBytes then Red[i % 4] else old(frame[i])
  {
    FillBytes(frame, start, ChunkBytes, 0xFF);
    FillChannel(frame, start, 0, Red[0]);
    FillChannel(frame, start, 1, Red[1]);
    FillChannel(frame, start, 2, Red[2]);
    FillChannel(frame, start, 3, Red[3]);
  }

  /**
   * The chunk numbers the iterator chain of `display` yields for the square
   * `(gridRow, gridCol)`: the ten pixel rows of its block, top to bottom.
   */
  method PickChunks(gridRow: nat, gridCol: nat) returns (chunks: seq<nat>)
    requires gridRow < GridRows && gridCol < GridCols
    ensures |chunks| == CellPixels
    ensures forall t :: 0 <= t < CellPixels ==> chunks[t] == gridCol + GridCols * (CellPixels * gridRow + t)
  {
    chunks := BlockChunks(gridRow, gridCol);
    BlockChunksAt(gridRow, gridCol);
  }

  /**
   * The body of the display loop for one living square: each of the ten
   * chunks the iterator chain picks is painted Red, which paints exactly
   * the block of that square.
   */
  method PaintSquare(frame: array<byte>, gridRow: nat, gridCol: nat)
    requires frame.Length == FrameLength && gridRow < GridRows && gridCol < GridCols
    modifies frame
    ensures forall i :: 0 <= i < FrameLength ==>
              frame[i] == if SquareOfByte(i) == (gridRow, gridCol) then Red[i % 4] else old(frame[i])
  {
    var chunks := PickChunks(gridRow, gridCol);
    ghost var base := frame[..];
    var t := 0;
    while t < |chunks|
      invariant t <= |chunks| && PaintedUpTo(frame[..], base, gridRow, gridCol, t)
    {
      NextChunk(0, gridRow, gridCol, t, chunks[t]);
      ChunkStart(chunks[t]);
      ghost var before := frame[..];
      PaintChunk(frame, chunks[t] * ChunkBytes);
      ChunkPainted(before, frame[..], base, gridRow, gridCol, t, chunks[t]);
      t := t + 1;
    }
    BlockPainted(frame[..], base, gridRow, gridCol);
  }
}
