/** Row-major RGBA pixel buffers: where the bytes of a pixel live, and which
    pixel a byte belongs to. Shared by the cell rasteriser and the line
    renderer, which both address a buffer as `(py * imgWidth + px) * 4 + c`. */
module Pixels {
  import opened Color

  /** Offset of the red byte of pixel (px, py) in a buffer `imgWidth` pixels wide. */
  function ByteIndex(imgWidth: int, px: int, py: int): int
  {
    (py * imgWidth + px) * 4
  }

  /** Column of the pixel that byte `k` belongs to. */
  function PixelX(imgWidth: int, k: int): int
    requires imgWidth > 0
  {
    k / 4 % imgWidth
  }

  /** Row of the pixel that byte `k` belongs to. */
  function PixelY(imgWidth: int, k: int): int
    requires imgWidth > 0
  {
    k / 4 / imgWidth
  }

  lemma MulAtLeast(a: int, d: int)
    requires a >= 1 && d > 0
    ensures a * d >= d
  {
    assert a * d == (a - 1) * d + d;
  }

  lemma MulMonotone(a: int, b: int, d: int)
    requires 0 <= a <= b && d >= 0
    ensures a * d <= b * d
  {
    assert b * d == a * d + (b - a) * d;
  }

  /** Euclidean division is determined by its quotient and remainder. */
  lemma DivModUnique(n: int, d: int, q: int, r: int)
    requires d > 0 && 0 <= r < d && n == q * d + r
    ensures n / d == q && n % d == r
  {
    var q0, r0 := n / d, n % d;
    assert n == q0 * d + r0;
    assert (q0 - q) * d == r - r0;
    if q0 > q {
      MulAtLeast(q0 - q, d);
      assert false;
    } else if q0 < q {
      MulAtLeast(q - q0, d);
      assert false;
    }
  }

  /** A cell's block: pixel `c * scale + o` with `o < scale` belongs to cell `c`
      at offset `o`, and lies before pixel `count * scale` when `c < count`. */
  lemma BlockCoords(c: int, o: int, scale: int, count: int)
    requires 0 <= c < count && 0 <= o < scale
    ensures (c * scale + o) / scale == c && (c * scale + o) % scale == o
    ensures 0 <= c * scale + o < count * scale
  {
    DivModUnique(c * scale + o, scale, c, o);
    MulMonotone(c + 1, count, scale);
    MulMonotone(0, c, scale);
  }

  /** The bytes of an in-image pixel are in the buffer, and each of them maps
      back to that pixel and to its own channel. */
  lemma ByteIndexCoords(imgWidth: int, imgHeight: int, px: int, py: int, c: int)
    requires 0 <= px < imgWidth && 0 <= py < imgHeight && 0 <= c < 4
    ensures 0 <= ByteIndex(imgWidth, px, py) + c < imgWidth * imgHeight * 4
    ensures (ByteIndex(imgWidth, px, py) + c) % 4 == c
    ensures PixelX(imgWidth, ByteIndex(imgWidth, px, py) + c) == px
    ensures PixelY(imgWidth, ByteIndex(imgWidth, px, py) + c) == py
  {
    var p := py * imgWidth + px;
    MulMonotone(0, py, imgWidth);
    MulMonotone(py + 1, imgHeight, imgWidth);
    assert 0 <= p < imgHeight * imgWidth;
    DivModUnique(p * 4 + c, 4, p, c);
    DivModUnique(p, imgWidth, py, px);
  }

  /** Every byte of a `imgWidth * imgHeight` buffer belongs to an in-image pixel
      and is that pixel's byte for channel `k % 4`. */
  lemma ByteCoordsOnto(imgWidth: int, imgHeight: int, k: int)
    requires imgWidth >= 0 && imgHeight >= 0 && 0 <= k < imgWidth * imgHeight * 4
    ensures imgWidth > 0
    ensures 0 <= PixelX(imgWidth, k) < imgWidth && 0 <= PixelY(imgWidth, k) < imgHeight
    ensures k == ByteIndex(imgWidth, PixelX(imgWidth, k), PixelY(imgWidth, k)) + k % 4
  {
    var p := k / 4;
    assert k == p * 4 + k % 4;
    assert p < imgWidth * imgHeight;
    var row, col := p / imgWidth, p % imgWidth;
    assert p == row * imgWidth + col;
    if row >= imgHeight {
      MulMonotone(imgHeight, row, imgWidth);
      assert false;
    }
  }

  /** Paints pixel `idx / 4` opaque `color`: its four bytes become R, G, B, 255
      and no other byte changes. */
  method PutPixel(buffer: array<bv8>, idx: int, color: Rgb)
    requires 0 <= idx && idx + 4 <= buffer.Length
    modifies buffer
    ensures forall k :: 0 <= k < buffer.Length ==>
      buffer[k] == if idx <= k < idx + 4 then Channel(color, k - idx) else old(buffer[k])
  {
    buffer[idx] := color.r;
    buffer[idx + 1] := color.g;
    buffer[idx + 2] := color.b;
    buffer[idx + 3] := 255;
  }
}
