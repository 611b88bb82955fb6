/** generations_to_rgba_buffer (src/image_output.rs): the rows of an
    automaton run drawn as an RGBA image `width * scale` pixels wide and
    `height * scale` high. Cell (x, y) owns the `scale * scale` block whose
    top-left pixel is (x * scale, y * scale); the buffer starts all zero and
    each cell paints the pixels of its block it covers, in its colour. */
module Raster {
  import opened Color
  import opened Pixels
  import opened Links

  /** The cell a byte's pixel lies in, and the pixel's offset inside that
      cell's block (0 for a buffer with no pixels). */
  function CellX(imgWidth: int, scale: int, k: int): int
  {
    if imgWidth > 0 && scale > 0 then PixelX(imgWidth, k) / scale else 0
  }

  function CellY(imgWidth: int, scale: int, k: int): int
  {
    if imgWidth > 0 && scale > 0 then PixelY(imgWidth, k) / scale else 0
  }

  function OffsetX(imgWidth: int, scale: int, k: int): int
  {
    if imgWidth > 0 && scale > 0 then PixelX(imgWidth, k) % scale else 0
  }

  function OffsetY(imgWidth: int, scale: int, k: int): int
  {
    if imgWidth > 0 && scale > 0 then PixelY(imgWidth, k) % scale else 0
  }

  /** Every row fits the grid: what the index formula needs to stay inside
      the cell's own block. */
  predicate InGrid(gens: Grid, width: int, height: int)
  {
    0 <= width && |gens| <= height && forall y :: 0 <= y < |gens| ==> |gens[y]| <= width
  }

  /** Whether the cell paints pixel (dx, dy) of its block: every pixel in
      square mode; in circle mode those `inCircle` accepts, which stands for
      the floating-point distance test against the block's inscribed circle. */
  predicate Paints(useCircles: bool, inCircle: (int, int, int, int) -> bool, x: int, y: int, dx: int, dy: int)
  {
    !useCircles || inCircle(x, y, dx, dy)
  }

  /** Byte `k` of the filled image: the channel of its cell's colour when the
      pixel is in a cell of the grid that paints it, 0 otherwise. The colour
      of a cell depends on its position and on whether it holds 1. */
  function CellByte(gens: Grid, width: int, scale: int, useCircles: bool, inCircle: (int, int, int, int) -> bool,
                    cellColor: (int, int, bool) -> Rgb, k: int): bv8
  {
    var imgWidth := width * scale;
    var x, y := CellX(imgWidth, scale, k), CellY(imgWidth, scale, k);
    if 0 <= y < |gens| && 0 <= x < |gens[y]| &&
       Paints(useCircles, inCircle, x, y, OffsetX(imgWidth, scale, k), OffsetY(imgWidth, scale, k))
    then Channel(cellColor(x, y, gens[y][x] == 1), k % 4)
    else 0
  }

  function BufferLength(width: nat, height: nat, scale: nat): (n: nat)
  {
    MulMonotone(0, width, scale);
    MulMonotone(0, height, scale);
    MulMonotone(0, width * scale, height * scale);
    width * scale * (height * scale) * 4
  }

  /** The image before links are drawn. */
  function Raster(gens: Grid, width: nat, height: nat, scale: nat, useCircles: bool,
                  inCircle: (int, int, int, int) -> bool, cellColor: (int, int, bool) -> Rgb): (buf: seq<bv8>)
    ensures |buf| == BufferLength(width, height, scale)
  {
    seq(BufferLength(width, height, scale), k => CellByte(gens, width, scale, useCircles, inCircle, cellColor, k))
  }

  /** The buffer starts all zero, and only pixels a grid cell paints leave
      zero: a byte outside every row's cells, or one its cell's shape skips,
      stays 0. With no rows the image is entirely zero. */
  lemma UnpaintedZero(gens: Grid, width: nat, height: nat, scale: nat, useCircles: bool,
                      inCircle: (int, int, int, int) -> bool, cellColor: (int, int, bool) -> Rgb, k: int)
    requires 0 <= k < BufferLength(width, height, scale)
    ensures var imgWidth := width * scale;
      var x, y := CellX(imgWidth, scale, k), CellY(imgWidth, scale, k);
      Raster(gens, width, height, scale, useCircles, inCircle, cellColor)[k] != 0 ==>
        0 <= y < |gens| && 0 <= x < |gens[y]| &&
        Paints(useCircles, inCircle, x, y, OffsetX(imgWidth, scale, k), OffsetY(imgWidth, scale, k))
    ensures |gens| == 0 ==> Raster(gens, width, height, scale, useCircles, inCircle, cellColor)[k] == 0
  {
  }

  /** A pixel's cell and offset are those of (x * scale + dx, y * scale + dy). */
  lemma BlockPixel(imgWidth: int, scale: int, k: int, x: int, y: int, dx: int, dy: int)
    requires imgWidth > 0 && scale > 0 && k >= 0 && 0 <= dx < scale && 0 <= dy < scale
    ensures (CellX(imgWidth, scale, k) == x && OffsetX(imgWidth, scale, k) == dx &&
             CellY(imgWidth, scale, k) == y && OffsetY(imgWidth, scale, k) == dy) <==>
            (PixelX(imgWidth, k) == x * scale + dx && PixelY(imgWidth, k) == y * scale + dy)
  {
    var px, py := PixelX(imgWidth, k), PixelY(imgWidth, k);
    if px == x * scale + dx {
      DivModUnique(px, scale, x, dx);
    }
    if py == y * scale + dy {
      DivModUnique(py, scale, y, dy);
    }
  }

  /** The byte the index formula gives for channel c of pixel (dx, dy) of
      cell (x, y) is in the buffer and belongs to that cell, that offset and
      that channel: the writes stay in bounds and blocks of distinct cells
      are disjoint. */
  lemma BlockIndex(width: nat, height: nat, scale: nat, x: int, y: int, dx: int, dy: int, c: int)
    requires 0 <= x < width && 0 <= y < height && 0 <= dx < scale && 0 <= dy < scale && 0 <= c < 4
    ensures var k := ((y * scale + dy) * (width * scale) + (x * scale + dx)) * 4 + c;
      0 <= k < BufferLength(width, height, scale) && k % 4 == c &&
      CellX(width * scale, scale, k) == x && CellY(width * scale, scale, k) == y &&
      OffsetX(width * scale, scale, k) == dx && OffsetY(width * scale, scale, k) == dy
  {
    var imgWidth, imgHeight := width * scale, height * scale;
    BlockCoords(x, dx, scale, width);
    BlockCoords(y, dy, scale, height);
    var px, py := x * scale + dx, y * scale + dy;
    ByteIndexCoords(imgWidth, imgHeight, px, py, c);
    BlockPixel(imgWidth, scale, ByteIndex(imgWidth, px, py) + c, x, y, dx, dy);
  }

  /** Distinct (cell, offset, channel) choices never share a byte. */
  lemma BlocksDisjoint(width: nat, height: nat, scale: nat, x: int, y: int, dx: int, dy: int, c: int,
                       x': int, y': int, dx': int, dy': int, c': int)
    requires 0 <= x < width && 0 <= y < height && 0 <= dx < scale && 0 <= dy < scale && 0 <= c < 4
    requires 0 <= x' < width && 0 <= y' < height && 0 <= dx' < scale && 0 <= dy' < scale && 0 <= c' < 4
    requires ((y * scale + dy) * (width * scale) + (x * scale + dx)) * 4 + c ==
             ((y' * scale + dy') * (width * scale) + (x' * scale + dx')) * 4 + c'
    ensures x == x' && y == y' && dx == dx' && dy == dy' && c == c'
  {
    BlockIndex(width, height, scale, x, y, dx, dy, c);
    BlockIndex(width, height, scale, x', y', dx', dy', c');
  }

  /** A quotient of a number below `count * d` is below `count`. */
  lemma DivBelow(n: int, d: int, count: int)
    requires d > 0 && 0 <= n < count * d
    ensures n / d < count
  {
    if n / d >= count {
      MulMonotone(count, n / d, d);
      assert false;
    }
  }

  /** Every byte of the buffer lies in the block of some cell of the
      `width * height` grid. */
  lemma ByteInCell(width: nat, height: nat, scale: nat, k: int)
    requires 0 <= k < BufferLength(width, height, scale)
    ensures width * scale > 0 && scale > 0
    ensures 0 <= CellX(width * scale, scale, k) < width && 0 <= CellY(width * scale, scale, k) < height
  {
    var imgWidth, imgHeight := width * scale, height * scale;
    assert imgWidth * imgHeight * 4 == BufferLength(width, height, scale);
    ByteCoordsOnto(imgWidth, imgHeight, k);
    assert scale > 0;
    DivBelow(PixelX(imgWidth, k), scale, width);
    DivBelow(PixelY(imgWidth, k), scale, height);
  }

  /** With a full `height * width` grid in square mode, every pixel of the
      image takes the colour of its cell, with alpha 255. */
  lemma FullGridSquares(gens: Grid, width: nat, height: nat, scale: nat, inCircle: (int, int, int, int) -> bool,
                        cellColor: (int, int, bool) -> Rgb, k: int)
    requires |gens| == height && forall y :: 0 <= y < height ==> |gens[y]| == width
    requires 0 <= k < BufferLength(width, height, scale)
    ensures var imgWidth := width * scale;
      var x, y := CellX(imgWidth, scale, k), CellY(imgWidth, scale, k);
      0 <= x < width && 0 <= y < height &&
      Raster(gens, width, height, scale, false, inCircle, cellColor)[k] == Channel(cellColor(x, y, gens[y][x] == 1), k % 4)
    ensures k % 4 == 3 ==> Raster(gens, width, height, scale, false, inCircle, cellColor)[k] == 255
  {
    ByteInCell(width, height, scale, k);
    var x, y := CellX(width * scale, scale, k), CellY(width * scale, scale, k);
    assert |gens[y]| == width;
    assert Raster(gens, width, height, scale, false, inCircle, cellColor)[k] ==
           CellByte(gens, width, scale, false, inCircle, cellColor, k);
  }

  /** Byte `k` lies in cell (x, y) at an offset the block loops of that cell
      have passed when they stand at (ox, oy). */
  ghost predicate PaintedBefore(imgWidth: int, scale: int, k: int, x: int, y: int, oy: int, ox: int)
  {
    CellX(imgWidth, scale, k) == x && CellY(imgWidth, scale, k) == y &&
    (OffsetY(imgWidth, scale, k) < oy || (OffsetY(imgWidth, scale, k) == oy && OffsetX(imgWidth, scale, k) < ox))
  }

  /** The block loops of one cell: each pixel of the block the cell paints
      becomes opaque `color`; nothing else changes. */
  method FillCell(buffer: array<bv8>, width: nat, height: nat, scale: nat, x: int, y: int, color: Rgb,
                  useCircles: bool, inCircle: (int, int, int, int) -> bool)
    requires 0 <= x < width && 0 <= y < height && buffer.Length == BufferLength(width, height, scale)
    modifies buffer
    ensures forall k :: 0 <= k < buffer.Length ==>
      buffer[k] == if CellX(width * scale, scale, k) == x && CellY(width * scale, scale, k) == y &&
                      Paints(useCircles, inCircle, x, y, OffsetX(width * scale, scale, k), OffsetY(width * scale, scale, k))
                   then Channel(color, k % 4) else old(buffer[k])
  {
    ghost var imgWidth, imgHeight := width * scale, height * scale;
    assert buffer.Length == imgWidth * imgHeight * 4;
    for dy := 0 to scale
      invariant forall k :: 0 <= k < buffer.Length ==>
        buffer[k] == if PaintedBefore(imgWidth, scale, k, x, y, dy, 0) &&
                        Paints(useCircles, inCircle, x, y, OffsetX(imgWidth, scale, k), OffsetY(imgWidth, scale, k))
                     then Channel(color, k % 4) else old(buffer[k])
    {
      for dx := 0 to scale
        invariant forall k :: 0 <= k < buffer.Length ==>
          buffer[k] == if PaintedBefore(imgWidth, scale, k, x, y, dy, dx) &&
                          Paints(useCircles, inCircle, x, y, OffsetX(imgWidth, scale, k), OffsetY(imgWidth, scale, k))
                       then Channel(color, k % 4) else old(buffer[k])
      {
        ghost var px, py := x * scale + dx, y * scale + dy;
        BlockCoords(x, dx, scale, width);
        BlockCoords(y, dy, scale, height);
        if !useCircles || inCircle(x, y, dx, dy) {
          var idx := ((y * scale + dy) * (width * scale) + (x * scale + dx)) * 4;
          ByteIndexCoords(imgWidth, imgHeight, px, py, 3);
          PutPixel(buffer, idx, color);
          forall k | 0 <= k < buffer.Length
            ensures buffer[k] == if PaintedBefore(imgWidth, scale, k, x, y, dy, dx + 1) &&
                                    Paints(useCircles, inCircle, x, y, OffsetX(imgWidth, scale, k), OffsetY(imgWidth, scale, k))
                                 then Channel(color, k % 4) else old(buffer[k])
          {
            ByteCoordsOnto(imgWidth, imgHeight, k);
            BlockPixel(imgWidth, scale, k, x, y, dx, dy);
            if idx <= k < idx + 4 {
              ByteIndexCoords(imgWidth, imgHeight, px, py, k - idx);
            }
          }
        } else {
          forall k | 0 <= k < buffer.Length
            ensures buffer[k] == if PaintedBefore(imgWidth, scale, k, x, y, dy, dx + 1) &&
                                    Paints(useCircles, inCircle, x, y, OffsetX(imgWidth, scale, k), OffsetY(imgWidth, scale, k))
                                 then Channel(color, k % 4) else old(buffer[k])
          {
            ByteCoordsOnto(imgWidth, imgHeight, k);
          }
        }
      }
    }
  }

  /** Cell (x', y') comes before cell (x, y) in the fill order: row by row,
      left to right. */
  predicate CellBefore(x': int, y': int, x: int, y: int)
  {
    y' < y || (y' == y && x' < x)
  }

  /** generations_to_rgba_buffer: a zero buffer of `width * scale` by
      `height * scale` RGBA pixels; every cell fills its block; then, if
      asked, the links are drawn over the result. */
  method GenerationsToRgbaBuffer(gens: Grid, width: nat, height: nat, scale: nat, useCircles: bool, useLinks: bool,
                                 inCircle: (int, int, int, int) -> bool, cellColor: (int, int, bool) -> Rgb,
                                 linkColor: (int, int, bool) -> Rgb)
    returns (buf: seq<bv8>)
    requires InGrid(gens, width, height)
    requires BufferLength(width, height, scale) < 0x1_0000_0000
    requires useLinks ==> Links.Covers(gens, width, height) && height >= 1 && BufferLength(width, height, scale) < 0x8000_0000
    ensures !useLinks ==> buf == Raster(gens, width, height, scale, useCircles, inCircle, cellColor)
    ensures useLinks ==> buf == DrawAll(Raster(gens, width, height, scale, useCircles, inCircle, cellColor),
                                        GridLinks(gens, width, height, height - 1), width, scale, linkColor)
  {
    var imgWidth := width * scale;
    var imgHeight := height * scale;
    var buffer := new bv8[BufferLength(width, height, scale)](_ => 0);
    for y := 0 to |gens|
      invariant forall k :: 0 <= k < buffer.Length ==>
        buffer[k] == if CellBefore(CellX(imgWidth, scale, k), CellY(imgWidth, scale, k), 0, y)
                     then CellByte(gens, width, scale, useCircles, inCircle, cellColor, k) else 0
    {
      for x := 0 to |gens[y]|
        invariant forall k :: 0 <= k < buffer.Length ==>
          buffer[k] == if CellBefore(CellX(imgWidth, scale, k), CellY(imgWidth, scale, k), x, y)
                       then CellByte(gens, width, scale, useCircles, inCircle, cellColor, k) else 0
      {
        var color := cellColor(x, y, gens[y][x] == 1);
        FillCell(buffer, width, height, scale, x, y, color, useCircles, inCircle);
      }
    }
    assert buffer[..] == Raster(gens, width, height, scale, useCircles, inCircle, cellColor);
    if useLinks {
      DrawLinks(buffer, gens, width, height, scale, linkColor);
    }
    buf := buffer[..];
  }
}
