/** Colours as the renderer handles them: opaque RGB triples of bytes, written
    to the buffer as four RGBA bytes with full alpha. */
module Color {

  datatype Rgb = Rgb(r: bv8, g: bv8, b: bv8)

  /** The byte written at offset `c` (0 to 3) of a pixel painted `color`:
      red, green, blue, then alpha 255. */
  function Channel(color: Rgb, c: int): bv8
  {
    if c == 0 then color.r
    else if c == 1 then color.g
    else if c == 2 then color.b
    else 255
  }
}
