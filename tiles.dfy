/**
 * The framebuffer and its tiles: `Chunk::process` writes the pixels of one tile into the
 * shared buffer at `i + j * WIDTH`, and `main` enumerates a fixed grid of tiles over a
 * buffer of `WIDTH * HEIGHT` zeros. The per-pixel computation (camera rays, samples, tone
 * curve, `from_rgb`) is the parameter `shade`, applied to the column `i` and the
 * row-from-bottom `HEIGHT - j` the source feeds to the camera.
 */
module Tiles {
  import opened Pixels

  const Width: nat := 800
  const Height: nat := 600
  const ChunkWidth: nat := 50
  const ChunkHeight: nat := 50

  /** A tile: its size and its top-left pixel. */
  datatype Chunk = Chunk(width: nat, height: nat, offsetX: nat, offsetY: nat)

  type Shade = (nat, nat) -> bv32

  /** Every row of the tile has `HEIGHT - j >= 0`, so the usize subtraction does not underflow. */
  predicate RowsInFrame(c: Chunk)
  {
    c.height == 0 || c.offsetY + c.height <= Height + 1
  }

  /** The framebuffer index of pixel (i, j): no clipping of the column. */
  function Index(i: nat, j: nat): nat
  {
    i + j * Width
  }

  /** `buffer.get_mut(k)`: a store when the index is in range, nothing otherwise. */
  function Put(s: seq<bv32>, k: nat, v: bv32): (t: seq<bv32>)
    ensures |t| == |s|
  {
    if k < |s| then s[k := v] else s
  }

  /** Row j of a tile written into `s`, from column `offsetX` up to (not including) `end`. */
  function PaintRow(s: seq<bv32>, c: Chunk, shade: Shade, j: nat, end: nat): (t: seq<bv32>)
    requires j <= Height
    ensures |t| == |s|
    decreases end
  {
    if end <= c.offsetX then s
    else Put(PaintRow(s, c, shade, j, end - 1), Index(end - 1, j), shade(end - 1, Height - j))
  }

  /** The rows of a tile from `offsetY` up to (not including) `end` written into `s`. */
  function PaintRows(s: seq<bv32>, c: Chunk, shade: Shade, end: nat): (t: seq<bv32>)
    requires RowsInFrame(c) && end <= c.offsetY + c.height
    ensures |t| == |s|
    decreases end
  {
    if end <= c.offsetY then s
    else PaintRow(PaintRows(s, c, shade, end - 1), c, shade, end - 1, c.offsetX + c.width)
  }

  /** The buffer after `process` of the tile `c`: its rows top to bottom, each left to right. */
  function Paint(s: seq<bv32>, c: Chunk, shade: Shade): seq<bv32>
    requires RowsInFrame(c)
  {
    PaintRows(s, c, shade, c.offsetY + c.height)
  }

  /** `Chunk::process`: for each row j, for each column i, store the pixel at `i + j * WIDTH` if in range. */
  method Process(c: Chunk, buffer: array<bv32>, shade: Shade)
    requires RowsInFrame(c)
    modifies buffer
    ensures buffer[..] == Paint(old(buffer[..]), c, shade)
  {
    for j := c.offsetY to c.offsetY + c.height
      invariant buffer[..] == PaintRows(old(buffer[..]), c, shade, j)
    {
      for i := c.offsetX to c.offsetX + c.width
        invariant buffer[..] == PaintRow(PaintRows(old(buffer[..]), c, shade, j), c, shade, j, i)
      {
        var index := Index(i, j);
        if index < buffer.Length {
          buffer[index] := shade(i, Height - j);
        }
      }
    }
  }

  /** One row writes exactly the indices `i + j * WIDTH` of its columns, each with its own pixel. */
  lemma {:induction false} RowPoint(s: seq<bv32>, c: Chunk, shade: Shade, j: nat, end: nat, k: nat)
    requires j <= Height && k < |s|
    ensures PaintRow(s, c, shade, j, end)[k]
         == if c.offsetX <= k - j * Width < end then shade(k - j * Width, Height - j) else s[k]
    decreases end
  {
    if c.offsetX < end {
      RowPoint(s, c, shade, j, end - 1, k);
    }
  }

  /** An index no pixel of the tile maps to keeps its old value. */
  lemma {:induction false} PaintRowsKeeps(s: seq<bv32>, c: Chunk, shade: Shade, end: nat, k: nat)
    requires RowsInFrame(c) && end <= c.offsetY + c.height && k < |s|
    requires forall i, j | c.offsetX <= i < c.offsetX + c.width && c.offsetY <= j < end :: Index(i, j) != k
    ensures PaintRows(s, c, shade, end)[k] == s[k]
    decreases end
  {
    if c.offsetY < end {
      PaintRowsKeeps(s, c, shade, end - 1, k);
      RowPoint(PaintRows(s, c, shade, end - 1), c, shade, end - 1, c.offsetX + c.width, k);
      var i := k - (end - 1) * Width;
      if 0 <= i {
        assert Index(i, end - 1) == k;
      }
    }
  }

  /** `process` leaves every entry alone that is not `i + j * WIDTH` of one of its pixels. */
  lemma PaintKeeps(s: seq<bv32>, c: Chunk, shade: Shade, k: nat)
    requires RowsInFrame(c) && k < |s|
    requires forall i, j | c.offsetX <= i < c.offsetX + c.width && c.offsetY <= j < c.offsetY + c.height :: Index(i, j) != k
    ensures Paint(s, c, shade)[k] == s[k]
  {
    PaintRowsKeeps(s, c, shade, c.offsetY + c.height, k);
  }

  /** `n` splits as `q * WIDTH + r` with `0 <= r < WIDTH` in exactly one way. */
  lemma DivModWidth(n: int, q: int, r: int)
    requires 0 <= r < Width && n == q * Width + r
    ensures n / Width == q && n % Width == r
  {
  }

  /** For a tile at most WIDTH wide, row r writes k exactly when r is the row `(k - offsetX) / WIDTH`. */
  lemma RowMatch(c: Chunk, k: nat, r: nat)
    requires c.width <= Width
    ensures (c.offsetX <= k - r * Width < c.offsetX + c.width)
        <==> (c.offsetX <= k && (k - c.offsetX) % Width < c.width && (k - c.offsetX) / Width == r)
    ensures c.offsetX <= k - r * Width < c.offsetX + c.width ==> k - r * Width == c.offsetX + (k - c.offsetX) % Width
  {
    var n := k - c.offsetX;
    if c.offsetX <= k - r * Width < c.offsetX + c.width {
      DivModWidth(n, r, n - r * Width);
    }
  }

  /** The rows of a tile from `offsetY` to `end` write index k. */
  predicate Written(c: Chunk, k: nat, end: nat)
  {
    c.offsetX <= k && (k - c.offsetX) % Width < c.width && c.offsetY <= (k - c.offsetX) / Width < end
  }

  /** For a tile at most WIDTH wide, no two of its pixels share an index, so each index holds its own pixel. */
  lemma {:induction false} RowsPoint(s: seq<bv32>, c: Chunk, shade: Shade, end: nat, k: nat)
    requires c.width <= Width && RowsInFrame(c) && end <= c.offsetY + c.height && k < |s|
    ensures Written(c, k, end) ==> (k - c.offsetX) / Width <= Height
    ensures PaintRows(s, c, shade, end)[k]
         == if Written(c, k, end)
            then shade(c.offsetX + (k - c.offsetX) % Width, Height - (k - c.offsetX) / Width)
            else s[k]
    decreases end
  {
    if c.offsetY < end {
      RowsPoint(s, c, shade, end - 1, k);
      RowPoint(PaintRows(s, c, shade, end - 1), c, shade, end - 1, c.offsetX + c.width, k);
      RowMatch(c, k, end - 1);
    }
  }

  /**
   * A tile at most WIDTH wide writes pixel (i, j) at `i + j * WIDTH` whenever that index is
   * in range. Nothing clips columns: a pixel with i >= WIDTH lands in row j + 1.
   */
  lemma PaintWrites(s: seq<bv32>, c: Chunk, shade: Shade, i: nat, j: nat)
    requires c.width <= Width && RowsInFrame(c)
    requires c.offsetX <= i < c.offsetX + c.width && c.offsetY <= j < c.offsetY + c.height
    requires Index(i, j) < |s|
    ensures j <= Height && Paint(s, c, shade)[Index(i, j)] == shade(i, Height - j)
  {
    RowsPoint(s, c, shade, c.offsetY + c.height, Index(i, j));
    RowMatch(c, Index(i, j), j);
  }

  /** Illustration of PaintWrites at one point: a tile placed at column 790 writes its pixel (805, 0) at the start of row 1, as (5, 1). */
  lemma WrapsToNextRow(s: seq<bv32>, shade: Shade)
    requires |s| == Width * Height
    ensures Paint(s, Chunk(ChunkWidth, ChunkHeight, 790, 0), shade)[Index(5, 1)] == shade(805, Height)
  {
    PaintWrites(s, Chunk(ChunkWidth, ChunkHeight, 790, 0), shade, 805, 0);
  }

  /** The tile covers index k of a WIDTH-wide image: its column and its row lie in the tile. */
  predicate Covers(c: Chunk, k: nat)
  {
    c.offsetX <= k % Width < c.offsetX + c.width && c.offsetY <= k / Width < c.offsetY + c.height
  }

  /** A tile that stays left of column WIDTH writes exactly the indices it covers, each with its own pixel. */
  lemma PaintPoint(s: seq<bv32>, c: Chunk, shade: Shade, k: nat)
    requires c.offsetX + c.width <= Width && RowsInFrame(c) && k < |s|
    ensures Covers(c, k) ==> k / Width <= Height
    ensures Paint(s, c, shade)[k] == if Covers(c, k) then shade(k % Width, Height - k / Width) else s[k]
  {
    RowsPoint(s, c, shade, c.offsetY + c.height, k);
    var n := k - c.offsetX;
    if k % Width >= c.offsetX {
      DivModWidth(n, k / Width, k % Width - c.offsetX);
    } else if k >= c.offsetX {
      DivModWidth(n, k / Width - 1, k % Width - c.offsetX + Width);
    }
  }

  /** `(a as f32 / b as f32).ceil() as usize`, exact for the constants used. */
  function CeilDiv(a: nat, b: nat): nat
    requires b > 0
  {
    (a + b - 1) / b
  }

  /** The grid's dimensions: 16 columns and 12 rows of tiles. */
  const Columns: nat := CeilDiv(Width, ChunkWidth)
  const Rows: nat := CeilDiv(Height, ChunkHeight)

  /** Tile t of the grid, numbered row by row. */
  function GridChunk(t: nat): (c: Chunk)
    ensures c.width == ChunkWidth && c.height == ChunkHeight
  {
    Chunk(ChunkWidth, ChunkHeight, (t % Columns) * ChunkWidth, (t / Columns) * ChunkHeight)
  }

  /** The tile loops of `main`: for each tile row j, for each tile column i, the tile at (i * 50, j * 50). */
  method Grid() returns (chunks: seq<Chunk>)
    ensures Columns == 16 && Rows == 12 && |chunks| == Rows * Columns
    ensures forall t | 0 <= t < |chunks| :: chunks[t] == GridChunk(t)
  {
    assert Columns == 16 && Rows == 12;
    chunks := [];
    for j := 0 to Rows
      invariant |chunks| == j * Columns
      invariant forall t | 0 <= t < |chunks| :: chunks[t] == GridChunk(t)
    {
      for i := 0 to Columns
        invariant |chunks| == j * Columns + i
        invariant forall t | 0 <= t < |chunks| :: chunks[t] == GridChunk(t)
      {
        GridIndex(j * Columns + i, i, j);
        chunks := chunks + [Chunk(ChunkWidth, ChunkHeight, i * ChunkWidth, j * ChunkHeight)];
      }
    }
  }

  lemma GridIndex(t: nat, i: nat, j: nat)
    requires i < Columns && t == j * Columns + i
    ensures GridChunk(t) == Chunk(ChunkWidth, ChunkHeight, i * ChunkWidth, j * ChunkHeight)
  {
    assert Columns == 16;
    assert t / Columns == j && t % Columns == i;
  }

  /** The tile of the grid covering index k: tile row `(k / WIDTH) / 50`, tile column `(k % WIDTH) / 50`. */
  function TileOf(k: nat): (t: nat)
    requires k < Width * Height
    ensures t < Rows * Columns
  {
    assert Columns == 16 && Rows == 12;
    (k / Width / ChunkHeight) * Columns + (k % Width) / ChunkWidth
  }

  /** Every grid tile stays left of column WIDTH and above row HEIGHT. */
  lemma GridChunkInFrame(t: nat)
    requires t < Rows * Columns
    ensures GridChunk(t).offsetX + GridChunk(t).width <= Width
    ensures GridChunk(t).offsetY + GridChunk(t).height <= Height
  {
    assert Columns == 16 && Rows == 12;
  }

  /** The grid partitions the image: index k is covered by tile `TileOf(k)` and by no other. */
  lemma GridPartition(k: nat, t: nat)
    requires k < Width * Height && t < Rows * Columns
    ensures Covers(GridChunk(t), k) <==> t == TileOf(k)
  {
    assert Columns == 16 && Rows == 12;
    var col, row := k % Width, k / Width;
    if Covers(GridChunk(t), k) {
      assert (t % 16) * 50 <= col < (t % 16) * 50 + 50;
      assert (t / 16) * 50 <= row < (t / 16) * 50 + 50;
      assert t % 16 == col / 50 && t / 16 == row / 50;
    }
    if t == TileOf(k) {
      assert t % 16 == col / 50 && t / 16 == row / 50;
    }
  }

  /** `vec![0; WIDTH * HEIGHT]`. */
  method NewFramebuffer() returns (buffer: array<bv32>)
    ensures fresh(buffer) && buffer.Length == Width * Height
    ensures forall k | 0 <= k < buffer.Length :: buffer[k] == 0
  {
    buffer := new bv32[Width * Height](_ => 0);
  }

  /** The pixel a render leaves at index k: the shade of its column and its row from the bottom. */
  function Pixel(shade: Shade, k: nat): bv32
    requires k < Width * Height
  {
    assert k / Width < Height;
    shade(k % Width, Height - k / Width)
  }

  /** Every tile of the grid processed in turn (the thread pool run one job after another). */
  method RenderTiles(buffer: array<bv32>, shade: Shade)
    requires buffer.Length == Width * Height
    modifies buffer
    ensures forall k | 0 <= k < buffer.Length :: buffer[k] == Pixel(shade, k)
  {
    var chunks := Grid();
    for t := 0 to |chunks|
      invariant forall k | 0 <= k < buffer.Length :: buffer[k] == if TileOf(k) < t then Pixel(shade, k) else old(buffer[k])
    {
      GridChunkInFrame(t);
      ghost var before := buffer[..];
      Process(chunks[t], buffer, shade);
      forall k | 0 <= k < buffer.Length
        ensures buffer[k] == if TileOf(k) < t + 1 then Pixel(shade, k) else old(buffer[k])
      {
        PaintPoint(before, chunks[t], shade, k);
        GridPartition(k, t);
        assert buffer[k] == Paint(before, chunks[t], shade)[k];
      }
    }
  }

  /**
   * A frame as `main` produces it: a zero framebuffer, every tile processed, and the bytes
   * saved to the image: three per pixel, the `to_rgb` channels of pixel k at 3k, 3k + 1, 3k + 2.
   */
  method Frame(shade: Shade) returns (pixels: seq<bv32>, bytes: seq<bv8>)
    ensures |pixels| == Width * Height
    ensures forall k | 0 <= k < |pixels| :: pixels[k] == Pixel(shade, k)
    ensures |bytes| == 3 * Width * Height
    ensures forall k | 0 <= k < |pixels| ::
      && bytes[3 * k] == ToRgb(pixels[k]).0
      && bytes[3 * k + 1] == ToRgb(pixels[k]).1
      && bytes[3 * k + 2] == ToRgb(pixels[k]).2
  {
    var buffer := NewFramebuffer();
    RenderTiles(buffer, shade);
    pixels := buffer[..];
    bytes := ToBytes(pixels);
    ToBytesLength(pixels);
    forall k | 0 <= k < |pixels|
      ensures && bytes[3 * k] == ToRgb(pixels[k]).0
              && bytes[3 * k + 1] == ToRgb(pixels[k]).1
              && bytes[3 * k + 2] == ToRgb(pixels[k]).2
    {
      ToBytesLayout(pixels, k);
    }
  }
}
