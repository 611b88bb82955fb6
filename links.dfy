/** draw_links_bresenham_rgba (src/image_output.rs): after the cells are
    filled, every cell is joined by a Bresenham line to each neighbour in
    the next row that holds the same state. Of the eight neighbour offsets
    the loop tries, only the three pointing one row down can pass its test. */
module Links {
  import opened Color
  import opened Pixels
  import opened Line

  type Grid = seq<seq<bv8>>

  /** A line from the centre of cell (x, y) to the centre of cell (nx, ny);
      `alive` records whether cell (x, y) holds 1, which selects its colour. */
  datatype Link = Link(x: int, y: int, nx: int, ny: int, alive: bool)

  /** The neighbour offsets in the order the loop tries them. */
  const NeighborOffsets: seq<Point> :=
    [Point(-1, -1), Point(0, -1), Point(1, -1), Point(-1, 0),
     Point(1, 0), Point(-1, 1), Point(0, 1), Point(1, 1)]

  /** The grid holds `height` rows of at least `width` cells: what the loop
      reads. */
  predicate Covers(gens: Grid, width: int, height: int)
  {
    0 <= width && 0 <= height <= |gens| && forall y :: 0 <= y < height ==> width <= |gens[y]|
  }

  /** `max(scale / 8, 1)` */
  function Thickness(scale: nat): int
  {
    Max(scale / 8, 1)
  }

  /** The centre of a cell's block along one axis. */
  function Centre(c: int, scale: nat): int
  {
    c * scale + scale / 2
  }

  /** The test the loop puts to neighbour (nx, ny) of cell (x, y). */
  predicate Admits(gens: Grid, width: int, height: int, x: int, y: int, nx: int, ny: int)
    requires Covers(gens, width, height) && 0 <= x < width && 0 <= y < height
  {
    ny == y + 1 && nx >= 0 && nx < width && ny >= 0 && ny < height && gens[ny][nx] == gens[y][x]
  }

  /** The links found for cell (x, y) among the first `j` offsets, in order. */
  function OffsetLinks(gens: Grid, width: int, height: int, x: int, y: int, j: int): seq<Link>
    requires Covers(gens, width, height) && 0 <= x < width && 0 <= y < height && 0 <= j <= 8
  {
    if j == 0 then []
    else
      var nx, ny := x + NeighborOffsets[j - 1].x, y + NeighborOffsets[j - 1].y;
      OffsetLinks(gens, width, height, x, y, j - 1) +
        if Admits(gens, width, height, x, y, nx, ny) then [Link(x, y, nx, ny, gens[y][x] == 1)] else []
  }

  /** The links of the cells (0, y) to (x - 1, y), in order. */
  function RowLinks(gens: Grid, width: int, height: int, y: int, x: int): seq<Link>
    requires Covers(gens, width, height) && 0 <= y < height && 0 <= x <= width
  {
    if x == 0 then []
    else RowLinks(gens, width, height, y, x - 1) + OffsetLinks(gens, width, height, x - 1, y, 8)
  }

  /** The links of rows 0 to y - 1, in order. The loop draws
      `GridLinks(gens, width, height, height - 1)`: every row but the last. */
  function GridLinks(gens: Grid, width: int, height: int, y: int): seq<Link>
    requires Covers(gens, width, height) && 0 <= y < height
  {
    if y == 0 then []
    else GridLinks(gens, width, height, y - 1) + RowLinks(gens, width, height, y - 1, width)
  }

  /** What a drawn link satisfies: it joins a cell to one of its three
      neighbours in the next row, inside the grid, holding the same state. */
  predicate IsLink(gens: Grid, width: int, height: int, l: Link)
    requires Covers(gens, width, height)
  {
    0 <= l.x < width && 0 <= l.y && l.ny == l.y + 1 && l.ny < height &&
    l.x - 1 <= l.nx <= l.x + 1 && 0 <= l.nx < width &&
    gens[l.ny][l.nx] == gens[l.y][l.x] && l.alive == (gens[l.y][l.x] == 1)
  }

  /** What a link of cell (x, y) to a neighbour must satisfy. */
  predicate Linked(gens: Grid, width: int, height: int, x: int, y: int, l: Link)
    requires Covers(gens, width, height)
  {
    l.x == x && l.y == y && IsLink(gens, width, height, l)
  }

  /** The eight offsets leave at most the three downward links, left to
      right; the upward and sideways offsets never pass the test. */
  lemma CellLinksDown(gens: Grid, width: int, height: int, x: int, y: int)
    requires Covers(gens, width, height) && 0 <= x < width && 0 <= y < height
    ensures forall l :: l in OffsetLinks(gens, width, height, x, y, 8) <==> Linked(gens, width, height, x, y, l)
  {
    assert OffsetLinks(gens, width, height, x, y, 1) == [];
    assert OffsetLinks(gens, width, height, x, y, 2) == [];
    assert OffsetLinks(gens, width, height, x, y, 3) == [];
    assert OffsetLinks(gens, width, height, x, y, 4) == [];
    assert OffsetLinks(gens, width, height, x, y, 5) == [];
    var o5 := OffsetLinks(gens, width, height, x, y, 5);
    var o6 := OffsetLinks(gens, width, height, x, y, 6);
    var o7 := OffsetLinks(gens, width, height, x, y, 7);
    var o8 := OffsetLinks(gens, width, height, x, y, 8);
    forall l ensures l in o8 <==> Linked(gens, width, height, x, y, l) {
      assert l in o8 <==> l in o7 || (Admits(gens, width, height, x, y, x + 1, y + 1) && l == Link(x, y, x + 1, y + 1, gens[y][x] == 1));
      assert l in o7 <==> l in o6 || (Admits(gens, width, height, x, y, x, y + 1) && l == Link(x, y, x, y + 1, gens[y][x] == 1));
      assert l in o6 <==> (Admits(gens, width, height, x, y, x - 1, y + 1) && l == Link(x, y, x - 1, y + 1, gens[y][x] == 1));
    }
  }

  lemma {:induction false} RowLinksMember(gens: Grid, width: int, height: int, y: int, x: int, l: Link)
    requires Covers(gens, width, height) && 0 <= y < height && 0 <= x <= width
    ensures l in RowLinks(gens, width, height, y, x) <==> l.y == y && l.x < x && IsLink(gens, width, height, l)
    decreases x
  {
    if x > 0 {
      var front, cell := RowLinks(gens, width, height, y, x - 1), OffsetLinks(gens, width, height, x - 1, y, 8);
      assert RowLinks(gens, width, height, y, x) == front + cell;
      RowLinksMember(gens, width, height, y, x - 1, l);
      CellLinksDown(gens, width, height, x - 1, y);
      assert l in front + cell <==> l in front || l in cell;
    }
  }

  lemma InAppend<T>(a: seq<T>, b: seq<T>, x: T)
    ensures x in a + b <==> x in a || x in b
  {
  }

  lemma {:induction false} GridLinksMember(gens: Grid, width: int, height: int, y: int, l: Link)
    requires Covers(gens, width, height) && 0 <= y < height
    ensures l in GridLinks(gens, width, height, y) <==> l.y < y && IsLink(gens, width, height, l)
    decreases y
  {
    if y > 0 {
      var front, row := GridLinks(gens, width, height, y - 1), RowLinks(gens, width, height, y - 1, width);
      assert GridLinks(gens, width, height, y) == front + row;
      InAppend(front, row, l);
      GridLinksMember(gens, width, height, y - 1, l);
      RowLinksMember(gens, width, height, y - 1, width, l);
    }
  }

  /** A link is drawn from (x, y) to (nx, ny) exactly when ny is the next
      row, nx is x - 1, x or x + 1 and inside the grid, and both cells hold
      the same state: no link ever goes up or sideways. */
  lemma LinkSelection(gens: Grid, width: int, height: int, l: Link)
    requires Covers(gens, width, height) && height >= 1
    ensures l in GridLinks(gens, width, height, height - 1) <==> IsLink(gens, width, height, l)
  {
    GridLinksMember(gens, width, height, height - 1, l);
    assert IsLink(gens, width, height, l) ==> l.y < height - 1;
  }

  /** A block centre lies inside the image whenever scale is at least 1. */
  lemma CentreInImage(c: int, count: int, scale: nat)
    requires 0 <= c < count && scale >= 1
    ensures 0 <= Centre(c, scale) < count * scale
  {
    assert Centre(c, scale) < (c + 1) * scale;
    MulMonotone(c + 1, count, scale);
    MulMonotone(0, c, scale);
  }

  /** The stamp of a link is `2 * (scale / 16) + 1` pixels wide: one pixel
      below scale 16, three from 16 to 31, and so on. */
  lemma StampWidth(scale: nat)
    ensures Thickness(scale) >= 1 && Half(Thickness(scale)) == scale / 16
  {
  }

  /** The image the links are drawn into. */
  function ImageWidth(width: int, scale: nat): int
  {
    width * scale
  }

  function ImageHeight(height: int, scale: nat): int
  {
    height * scale
  }

  /** The points of a link's line. */
  function LinkPoints(l: Link, scale: nat): seq<Point>
  {
    LinePoints(Centre(l.x, scale), Centre(l.y, scale), Centre(l.nx, scale), Centre(l.ny, scale))
  }

  /** Every point a link stamps lies inside the image. */
  lemma LinkPointsInImage(gens: Grid, width: int, height: int, scale: nat, l: Link, i: int)
    requires Covers(gens, width, height) && height >= 1 && scale >= 1
    requires l in GridLinks(gens, width, height, height - 1) && 0 <= i < |LinkPoints(l, scale)|
    ensures 0 <= LinkPoints(l, scale)[i].x < ImageWidth(width, scale)
    ensures 0 <= LinkPoints(l, scale)[i].y < ImageHeight(height, scale)
  {
    LinkSelection(gens, width, height, l);
    CentreInImage(l.x, width, scale);
    CentreInImage(l.nx, width, scale);
    CentreInImage(l.y, height, scale);
    CentreInImage(l.ny, height, scale);
  }

  /** The buffer after drawing one link in the colour chosen for its cell. */
  function DrawLink(buf: seq<bv8>, l: Link, width: int, scale: nat, linkColor: (int, int, bool) -> Rgb): (r: seq<bv8>)
    ensures |r| == |buf|
  {
    StampAll(buf, LinkPoints(l, scale), ImageWidth(width, scale), Half(Thickness(scale)), linkColor(l.x, l.y, l.alive))
  }

  /** The buffer after drawing links first to last. */
  function DrawAll(buf: seq<bv8>, links: seq<Link>, width: int, scale: nat, linkColor: (int, int, bool) -> Rgb): (r: seq<bv8>)
    ensures |r| == |buf|
    decreases |links|
  {
    if links == [] then buf
    else DrawLink(DrawAll(buf, links[..|links| - 1], width, scale, linkColor), links[|links| - 1], width, scale, linkColor)
  }

  /** Drawing two lists of links one after the other draws their concatenation. */
  lemma {:induction false} DrawAllAppend(buf: seq<bv8>, a: seq<Link>, b: seq<Link>, width: int, scale: nat,
                                         linkColor: (int, int, bool) -> Rgb)
    ensures DrawAll(buf, a + b, width, scale, linkColor) == DrawAll(DrawAll(buf, a, width, scale, linkColor), b, width, scale, linkColor)
    decreases |b|
  {
    if b != [] {
      var n := |b| - 1;
      DrawAllAppend(buf, a, b[..n], width, scale, linkColor);
      assert (a + b)[..|a + b| - 1] == a + b[..n];
      assert (a + b)[|a + b| - 1] == b[n];
    } else {
      assert a + b == a;
    }
  }

  lemma OffsetLinksNext(gens: Grid, width: int, height: int, x: int, y: int, j: int)
    requires Covers(gens, width, height) && 0 <= x < width && 0 <= y < height && 0 <= j < 8
    ensures
      var nx, ny := x + NeighborOffsets[j].x, y + NeighborOffsets[j].y;
      OffsetLinks(gens, width, height, x, y, j + 1) ==
        OffsetLinks(gens, width, height, x, y, j) +
        if Admits(gens, width, height, x, y, nx, ny) then [Link(x, y, nx, ny, gens[y][x] == 1)] else []
  {
  }

  /** The innermost loop of draw_links_bresenham_rgba: cell (x, y) tries
      each offset in turn and draws the links that pass. */
  method DrawCellLinks(buffer: array<bv8>, gens: Grid, width: int, height: int, scale: nat,
                       linkColor: (int, int, bool) -> Rgb, x: int, y: int)
    requires Covers(gens, width, height) && 0 <= x < width && 0 <= y < height
    requires buffer.Length == ImageWidth(width, scale) * ImageHeight(height, scale) * 4
    modifies buffer
    ensures buffer[..] == DrawAll(old(buffer[..]), OffsetLinks(gens, width, height, x, y, 8), width, scale, linkColor)
  {
    var thickness := Max(scale / 8, 1);
    var cx, cy := x * scale + scale / 2, y * scale + scale / 2;
    ghost var cellStart := buffer[..];
    for j := 0 to 8
      invariant buffer[..] == DrawAll(cellStart, OffsetLinks(gens, width, height, x, y, j), width, scale, linkColor)
    {
      TryOffset(buffer, gens, width, height, scale, linkColor, x, y, cx, cy, thickness, j, cellStart);
    }
  }

  /** One pass of that loop: the link to offset `j`, drawn when it passes
      the filter, appended to what the earlier offsets drew. */
  method TryOffset(buffer: array<bv8>, gens: Grid, width: int, height: int, scale: nat,
                   linkColor: (int, int, bool) -> Rgb, x: int, y: int, cx: int, cy: int, thickness: int, j: int,
                   ghost cellStart: seq<bv8>)
    requires Covers(gens, width, height) && 0 <= x < width && 0 <= y < height && 0 <= j < 8
    requires cx == x * scale + scale / 2 && cy == y * scale + scale / 2 && thickness == Max(scale / 8, 1)
    requires buffer.Length == ImageWidth(width, scale) * ImageHeight(height, scale) * 4
    requires buffer[..] == DrawAll(cellStart, OffsetLinks(gens, width, height, x, y, j), width, scale, linkColor)
    modifies buffer
    ensures buffer[..] == DrawAll(cellStart, OffsetLinks(gens, width, height, x, y, j + 1), width, scale, linkColor)
  {
    var nx, ny := x + NeighborOffsets[j].x, y + NeighborOffsets[j].y;
    ghost var found := OffsetLinks(gens, width, height, x, y, j);
    OffsetLinksNext(gens, width, height, x, y, j);
    if ny == y + 1 && nx >= 0 && nx < width && ny >= 0 && ny < height {
      var cellVal, neighborVal := gens[y][x], gens[ny][nx];
      if neighborVal == cellVal {
        MulMonotone(0, width, scale);
        MulMonotone(0, height, scale);
        var ncx, ncy := nx * scale + scale / 2, ny * scale + scale / 2;
        var color := linkColor(x, y, cellVal == 1);
        ghost var l := Link(x, y, nx, ny, cellVal == 1);
        assert OffsetLinks(gens, width, height, x, y, j + 1) == found + [l];
        DrawAllSnoc(cellStart, found, l, width, scale, linkColor);
        LinkLine(l, scale, cx, cy, ncx, ncy);
        DrawLine(buffer, width * scale, height * scale, cx, cy, ncx, ncy, color, thickness);
      } else {
        assert OffsetLinks(gens, width, height, x, y, j + 1) == found;
      }
    } else {
      assert OffsetLinks(gens, width, height, x, y, j + 1) == found;
    }
  }

  lemma DrawAllSnoc(buf: seq<bv8>, links: seq<Link>, l: Link, width: int, scale: nat, linkColor: (int, int, bool) -> Rgb)
    ensures DrawAll(buf, links + [l], width, scale, linkColor) ==
            DrawLink(DrawAll(buf, links, width, scale, linkColor), l, width, scale, linkColor)
  {
    assert (links + [l])[..|links|] == links;
  }

  lemma LinkLine(l: Link, scale: nat, cx: int, cy: int, ncx: int, ncy: int)
    requires cx == l.x * scale + scale / 2 && cy == l.y * scale + scale / 2
    requires ncx == l.nx * scale + scale / 2 && ncy == l.ny * scale + scale / 2
    ensures LinkPoints(l, scale) == LinePoints(cx, cy, ncx, ncy)
    ensures Thickness(scale) == Max(scale / 8, 1)
  {
  }

  /** draw_links_bresenham_rgba: draws every link of the grid, in order, with
      a stamp of thickness `max(scale / 8, 1)`. */
  method DrawLinks(buffer: array<bv8>, gens: Grid, width: int, height: int, scale: nat,
                   linkColor: (int, int, bool) -> Rgb)
    requires Covers(gens, width, height) && height >= 1
    requires buffer.Length == ImageWidth(width, scale) * ImageHeight(height, scale) * 4 < 0x8000_0000
    modifies buffer
    ensures buffer[..] == DrawAll(old(buffer[..]), GridLinks(gens, width, height, height - 1), width, scale, linkColor)
  {
    ghost var init := buffer[..];
    for y := 0 to height - 1
      invariant buffer[..] == DrawAll(init, GridLinks(gens, width, height, y), width, scale, linkColor)
    {
      ghost var rowStart := buffer[..];
      for x := 0 to width
        invariant buffer[..] == DrawAll(rowStart, RowLinks(gens, width, height, y, x), width, scale, linkColor)
      {
        DrawCellLinks(buffer, gens, width, height, scale, linkColor, x, y);
        DrawAllAppend(rowStart, RowLinks(gens, width, height, y, x), OffsetLinks(gens, width, height, x, y, 8),
                      width, scale, linkColor);
      }
      DrawAllAppend(init, GridLinks(gens, width, height, y), RowLinks(gens, width, height, y, width),
                    width, scale, linkColor);
    }
  }
}
