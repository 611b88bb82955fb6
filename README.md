# ecars: elementary cellular automaton and its rasteriser, in Dafny

This project models the core of `ecars`, a Rust crate that runs a
one-dimensional binary cellular automaton under a Wolfram rule number and
draws its history as an RGBA image. The model covers two pieces.

- **The automaton engine** (`src/lib.rs`). `run_automaton` seeds a row of
  `width` cells. The row is either random (one generator draw per cell
  against a probability) or has a single live cell at `width / 2`. The
  engine then applies the rule: cell `i` of the next row is bit
  `(left << 2) | (center << 1) | right` of the rule, and cells beyond
  either edge read as 0. The rows are laid end to end.
  `generate_automaton_image` repeats the stepping but keeps one vector per
  row. It parses `#RRGGBB` colours with `parse_hex_color`, and it prefixes
  the pixel bytes with the image width and height as little-endian u32s.
- **The integer rasterisation pipeline** (`src/image_output.rs`).
  `generations_to_rgba_buffer` allocates a zero buffer of
  `width * scale` by `height * scale` RGBA pixels. Each cell fills its
  `scale * scale` block, as a square or as a circle. If links are on,
  `draw_links_bresenham_rgba` then joins every cell to each same-state
  neighbour in the next row. It does this with `draw_line_bresenham_rgba`,
  an integer Bresenham line that stamps a clipped square at every point.

Modules, one per file:

- `Wrappers`: `Option` and `Result`.
- `Color`: RGB triples and the RGBA byte a pixel gets.
- `Pixels`: row-major byte addressing and `PutPixel`.
- `Automaton`: the step function, its iterates, the seeded first row, and the imperative runs.
- `HexColor`: `parse_hex_color`.
- `Header`: the 8-byte little-endian prefix.
- `Line`: Bresenham line and square stamp.
- `Links`: link selection and drawing.
- `Raster`: cell fill and the whole buffer.

Every imperative routine of the source is a Dafny method, and each
method's `ensures` gives its whole result or its whole new buffer: most
of them as a specification function of the inputs, a few (`PutPixel`,
`FillCell`, `PrefixDimensions`) byte by byte. The lemmas state what the
source promises about those functions.

Modelling choices:

- u8 values that the source combines with bit operations are `bv8`.
  Indices and sizes are unbounded integers, and the size preconditions rule
  out the overflows the source would hit.
- Strings are byte sequences, since Rust's `str::len` and slicing count
  bytes.
- The random generator is a parameter. `draws[i]` says whether the i-th
  draw fell below the distribution.
- Colour interpolation and the circle test are floating-point, so they are
  function parameters. `cellColor(x, y, alive)` stands for the gradient
  colour of a cell and `linkColor(x, y, alive)` for the reversed gradient of
  its links. `inCircle(x, y, dx, dy)` stands for the distance test of pixel
  `(dx, dy)` of cell `(x, y)`.
- The square and circle fills are one loop. Pixel `(dx, dy)` is painted
  when `!useCircles || inCircle(x, y, dx, dy)`.
- Two of the source's panics are `Err` results in the model: indexing
  `current[width / 2]` in a centred first row of width 0, and a malformed
  colour. The others are excluded by a precondition instead, and the model
  makes no promise for them (see "Left out"): links over a grid of height 0;
  a grid larger than the image (more than `height` rows, or a row longer
  than `width`), which the fill loops would write outside its block or past
  the buffer; and, with links, a grid with fewer rows or shorter rows than
  the link loops read.

Behaviours of the code worth knowing, which the model keeps:

- Generation count 0 is not rejected. `run_automaton` still emits the first
  row (`RowCount(0) == 1`).
- A random first row of width 0 is empty. It is not an error.
- The stamp of a link is `2 * (thickness / 2) + 1` pixels wide, not
  `thickness`. It is 1 pixel for thickness 1 and 3 pixels for thickness 2
  (`Links.StampWidth`: the half-width is `scale / 16`).
- `generations_to_rgba_buffer` in src/image_output.rs takes a single
  `use_circles` flag and has no mirroring. That is what is modelled.
- `parse_hex_color` asserts only the length, with the message "Color must
  be in format #RRGGBB". It reads each pair with `u8::from_str_radix`,
  which also takes a leading `+`, so `+f0000` is accepted as (15, 0, 0)
  although it is not of the form `#RRGGBB`.

## Model

| member | source | states |
|---|---|---|
| `Automaton.Step` | src/lib.rs:35-42 | one generation keeps the row's length and keeps every cell 0 or 1 |
| `Automaton.StepIsRuleBit` | src/lib.rs:37-41 | new cell `i`, read as a number, is binary digit `4*left + 2*center + right` of the rule; neighbours off either edge count as 0, so the row does not wrap |
| `Automaton.Rule90Example` | src/lib.rs:36-42 | under rule 90 a single live cell in `00100` becomes `01010` |
| `Automaton.Rule90Xor` | src/lib.rs:36-42 | under rule 90 every new cell is the exclusive or of its two old neighbours, off-edge neighbours counting as 0 |
| `Automaton.Rule90Row` | src/lib.rs:35-42 | a rule-90 step is the row of neighbour differences, cell for cell |
| `Automaton.Rule90Steps` | src/lib.rs:35-44 | rule 90 turns `0001000` into `0010100`, then `0100010`, then `1010101` |
| `Automaton.Rule90History` | src/lib.rs:32-46 | a 7-wide, 4-generation rule-90 run from `0001000` holds those four rows, laid end to end in the flat output |
| `Automaton.RuleZeroHistory` | src/lib.rs:41 | with rule 0 every row from index 1 on is all zeros, whatever row 0 holds |
| `Automaton.HistoryStep` | src/lib.rs:33-45 | each row of the history after the first is the step of the row before it and of nothing else |
| `Automaton.FlattenLength` | src/lib.rs:33 | rows of width `w` laid end to end give `rows*w` entries |
| `Automaton.FlattenCell` | src/lib.rs:33 | in rows of width `w` laid end to end, cell `i` of row `g` sits at `g*w + i`, inside the output |
| `Automaton.FlatHistoryShape` | src/lib.rs:32-46 | the flat output of `count` rows has exactly `count*width` entries, each 0 or 1 |
| `Automaton.InitialRow` | src/lib.rs:18-31 | a successful seed has `width` cells, each 0 or 1 |
| `Automaton.CentreStart` | src/lib.rs:19-31 | without a positive distribution the seed fails exactly for width 0; otherwise its only live cell is at `width/2` |
| `Automaton.RandomStartRow` | src/lib.rs:19-25 | with a positive distribution cell `i` is live exactly when draw `i` fell below it |
| `Automaton.RowCount` | src/lib.rs:32-34 | a run emits at least one row, and exactly `generations` rows when that is at least 1 |
| `Automaton.SeedRow` | src/lib.rs:18-31 | the in-place seeding yields the specified first row in a fresh vector, or the error for a centred row of width 0 |
| `Automaton.StepRow` | src/lib.rs:35-42 | the inner loop fills a fresh vector with the step of the current row |
| `Automaton.AppendGeneration` | src/lib.rs:35-45 | one outer iteration yields the next iterate in a fresh vector and extends the flat output by one row of the history |
| `Automaton.RunAutomaton` | src/lib.rs:9-47 | the output is the first `max(generations, 1)` iterates of the rule from the seeded row, laid end to end; it fails exactly when seeding does |
| `Automaton.AutomatonRows` | src/lib.rs:79-106 | the nested rows are that same history, so flattening them gives `run_automaton`'s output for the same draws |
| `HexColor.ParseHexColor` | src/lib.rs:50-52 | the length error is raised exactly when the input, less one leading `#`, is not 6 bytes |
| `HexColor.ParseDigits` | src/lib.rs:53-56 | six hex digits give channels `16*hi + lo` from byte pairs 0-1, 2-3 and 4-5 |
| `HexColor.ParseField` | src/lib.rs:53-55 | a byte pair parses exactly when it is two hex digits or a `+` and one hex digit, to `16*hi + lo` or to the one digit |
| `HexColor.ParseFields` | src/lib.rs:50-57 | a six-byte input names a colour exactly when each of its three pairs is such a field, and each channel is the number its pair names |
| `HexColor.ParseRejects` | src/lib.rs:53-55 | a byte that is neither a hex digit nor a `+` opening a pair before a digit makes parsing fail |
| `HexColor.HashOptional` | src/lib.rs:51 | putting a `#` in front of an input that does not start with one changes neither the colour nor the error |
| `HexColor.OneHashOnly` | src/lib.rs:51-52 | only one `#` is stripped: `##` followed by six bytes is a length error |
| `HexColor.FormatParseRoundTrip` | src/lib.rs:50-57 | formatting any colour as `#` and six lower-case hex digits and parsing it gives the colour back, with or without the `#` |
| `HexColor.ParseExamples` | src/lib.rs:49-57 | `ffaaff` and `#ffaaff` both give (255, 170, 255); `+f0000` gives (15, 0, 0) |
| `Header.Le32RoundTrip` | src/lib.rs:130-131 | the four little-endian bytes of a u32 decode back to it |
| `Header.PrefixDimensions` | src/lib.rs:128-133 | the output is `8 + len` bytes: bytes 0-3 decode to the width, 4-7 to the height, and the rest is the pixel buffer unchanged |
| `Pixels.ByteIndexCoords` | src/image_output.rs:240 | the bytes of an in-image pixel are inside the buffer and map back to that pixel and channel |
| `Pixels.PutPixel` | src/image_output.rs:241-244 | a pixel write sets R, G, B and alpha 255 in its four bytes and changes no other byte |
| `Line.StartOnTrack` | src/image_output.rs:225-231 | the line's starting state satisfies the Bresenham invariant |
| `Line.AdvanceOnTrack` | src/image_output.rs:251-259 | away from the target an iteration keeps the invariant, never steps past the target on either axis, and moves on at least one |
| `Line.StepCounts` | src/image_output.rs:251-259 | in terms of the distances still to go, neither test steps past the target, at least one passes, and the error term stays tied to the new distances |
| `Line.AdvancePen` | src/image_output.rs:251-259 | one iteration's two `e2` tests and updates, both decided before either step, give `Advance` of the pen |
| `Line.TraceOnTrack` | src/image_output.rs:232-260 | from any on-track state the loop reaches the target within `LeftX + LeftY` iterations; its points start at the pen, end at the target, move to a neighbouring pixel each step and never pass the target |
| `Line.LinePoints` | src/image_output.rs:225-260 | the stamped points start at (x0, y0), end exactly at (x1, y1), step to a neighbouring pixel each time, and stay in the segment's bounding box |
| `Line.LineReaches` | src/image_output.rs:232-260 | the loop, started as the source starts it, terminates, and what it stamps is `LinePoints` |
| `Line.StampSquare` | src/image_output.rs:234-247 | the stamp paints exactly the in-image pixels at most `half` from the point and changes nothing else |
| `Line.StampAllBytes` | src/image_output.rs:232-260 | after a line is drawn, a byte holds the line colour's channel (alpha 255) exactly when some stamp covers its pixel; every other byte is unchanged |
| `Line.Half` | src/image_output.rs:234 | `thickness / 2` truncates toward zero, for negative thickness too |
| `Line.StampPoint` | src/image_output.rs:232-248 | one iteration's stamp extends the buffer from the stamps of the points before it to the stamps up to and including this one |
| `Line.DrawLine` | src/image_output.rs:214-261 | the buffer afterwards is the old buffer stamped, in order, at every point of `LinePoints` |
| `Links.CellLinksDown` | src/image_output.rs:174-184 | of the eight offsets only the three downward ones can yield a link; a cell links to `(nx, y+1)` iff `nx` is within one column, inside the grid, and of the same state |
| `Links.RowLinksMember` | src/image_output.rs:157-184 | the links found along row `y` up to column `x` are exactly the links of the cells of that row left of `x` |
| `Links.GridLinksMember` | src/image_output.rs:156-184 | the links found in the rows before `y` are exactly the links whose cell lies in one of those rows |
| `Links.LinkSelection` | src/image_output.rs:156-184 | over rows `0..height-1` the loop finds exactly the links `(x, y) -> (nx, y+1)` with `y+1 < height`, `nx` in `x-1..x+1` and in `[0, width)`, and equal states, the colour flag set when the cell holds 1; never upward or sideways |
| `Links.CentreInImage` | src/image_output.rs:170-173 | a block centre `c*scale + scale/2` lies inside the image when `scale >= 1` |
| `Links.LinkPointsInImage` | src/image_output.rs:170-206 | every point a drawn link stamps lies inside the image |
| `Links.StampWidth` | src/image_output.rs:143 | the link thickness is at least 1 and its half-width is `scale / 16` |
| `Links.DrawAllAppend` | src/image_output.rs:156-211 | drawing two lists of links in turn is drawing their concatenation |
| `Links.TryOffset` | src/image_output.rs:174-207 | one neighbour offset draws its link when it passes the test and leaves the buffer as it was otherwise |
| `Links.DrawCellLinks` | src/image_output.rs:174-209 | one cell's offset loop draws that cell's links, in offset order |
| `Links.DrawLinks` | src/image_output.rs:132-212 | the buffer afterwards is the old buffer with every selected link drawn, row by row, cell by cell, offset by offset |
| `Raster.Raster` | src/image_output.rs:58-60 | the image has `width*scale * height*scale * 4` bytes |
| `Raster.UnpaintedZero` | src/image_output.rs:60-111 | the buffer starts zero: a byte is nonzero only if its pixel lies in a cell of the grid that paints it, so with no rows the image is all zero |
| `Raster.BlockIndex` | src/image_output.rs:101-108 | the index formula for any in-grid cell, in-block offset and channel is inside the buffer, and it decodes to that cell, offset and channel |
| `Raster.BlocksDisjoint` | src/image_output.rs:101-108 | two cell/offset/channel choices that give the same byte are the same choice, so blocks of distinct cells are disjoint |
| `Raster.FullGridSquares` | src/image_output.rs:75-110 | in square mode with a full `height x width` grid, every pixel takes its cell's colour with alpha 255 |
| `Raster.FillCell` | src/image_output.rs:81-111 | a cell's block loops paint the pixels of its block it covers in its colour, and leave every other byte as it was |
| `Raster.GenerationsToRgbaBuffer` | src/image_output.rs:46-129 | the buffer is the zero image with every cell's block filled, and with all selected links drawn over it when links are on |

## Left out

- Colour interpolation `lerp_color` and the gradient factor `t` use f32 arithmetic. They are the parameters `cellColor` and `linkColor`.
- The circle test uses f32 `sqrt`. It is the parameter `inCircle`.
- The random first row uses `SmallRng` and OS entropy, which are foreign code. The draws are the parameter `draws`, and `src/rng_utils.rs` is not part of this model.
- `save_generations_as_png` builds an image with the `image` crate and writes a file. That is I/O.
- The rest of `generate_automaton_image` (src/lib.rs:107-127) is left out. Its call to `generations_to_rgba_buffer` passes shape names and mirror flags and destructures a tuple, which the function in src/image_output.rs does not accept or return. No mirroring or per-state shape code exists to model. Its stepping, colour parsing and header are modelled.
- Mirroring (doubling the canvas horizontally or vertically) and per-state shape selection have no code in `src/image_output.rs`, so they are not modelled.
- `src/main.rs` (command-line parsing, printing) and the web front end are not part of this model.
- Integer overflow is not modelled. Sizes are unbounded integers. `Raster.GenerationsToRgbaBuffer` requires the buffer to be below 2^32 bytes, as its u32 size arithmetic needs, and below 2^31 bytes when links are drawn, as their i32 arithmetic needs. `Links.DrawLinks` requires the latter too.
- `Line.DrawLine` works on unbounded integers. It does not model i32 overflow of `(x1 - x0).abs()` or `2 * err` for coordinates near the i32 limits, which the link renderer never passes.
- `Raster.GenerationsToRgbaBuffer` requires each row to have at most `width` cells and at most `height` rows, and, with links, exactly that grid. Without that, the source can write into another cell's block or panic on an out-of-range index, though not always: with links off and a zero-sized image, for example, it returns an empty buffer. The model makes no promise for such grids.
- `Links.DrawLinks` requires `height >= 1`. For height 0, `height - 1` underflows in the source. `generate_automaton_image` passes its `generations` argument as `height` unchecked, so generations 0 with links on reaches it when the cell loops write nothing (scale 0, or a random first row of width 0); otherwise the fill's first write panics on the empty buffer. The model does not cover either case.
- `HexColor.ParseHexColor` reports every failure as a `HexError` value. The source panics: on the length assertion, on `from_str_radix` errors, and on slicing a non-ASCII string off a character boundary. All of these are errors in the model too, but the two non-length cases are not told apart.
- `Automaton.Step` requires the row to be 0/1. The source only ever builds such rows, and a larger cell value can make `rule >> idx` shift by 8 or more.
