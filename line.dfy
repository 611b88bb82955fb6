/** The integer Bresenham line of the link renderer, and the clipped square
    stamp it paints at every point of the line (src/image_output.rs,
    draw_line_bresenham_rgba). */
module Line {
  import opened Color
  import opened Pixels

  datatype Point = Point(x: int, y: int)

  function Abs(n: int): int
  {
    if n < 0 then -n else n
  }

  function Min(a: int, b: int): int
  {
    if a < b then a else b
  }

  function Max(a: int, b: int): int
  {
    if a < b then b else a
  }

  /** What a run fixes before its loop starts: the target (x1, y1), the
      spans `dx = |x1 - x0|` and `dy = -|y1 - y0|`, and the unit steps. */
  datatype Plan = Plan(x1: int, y1: int, dx: int, dy: int, sx: int, sy: int)

  /** What the loop updates: the current point and the error term. */
  datatype Pen = Pen(x: int, y: int, err: int)

  function PlanFor(x0: int, y0: int, x1: int, y1: int): Plan
  {
    Plan(x1, y1, Abs(x1 - x0), -Abs(y1 - y0),
         if x0 < x1 then 1 else -1, if y0 < y1 then 1 else -1)
  }

  /** Steps still to go in x and in y. */
  function LeftX(plan: Plan, pen: Pen): int
  {
    (plan.x1 - pen.x) * plan.sx
  }

  function LeftY(plan: Plan, pen: Pen): int
  {
    (plan.y1 - pen.y) * plan.sy
  }

  predicate AtEnd(plan: Plan, pen: Pen)
  {
    pen.x == plan.x1 && pen.y == plan.y1
  }

  /** The run's invariant: the pen has not overshot the target on either axis,
      and the error term is fixed by how far it still has to go. */
  ghost predicate OnTrack(plan: Plan, pen: Pen)
  {
    plan.dx >= 0 && plan.dy <= 0 &&
    (plan.sx == 1 || plan.sx == -1) && (plan.sy == 1 || plan.sy == -1) &&
    0 <= LeftX(plan, pen) <= plan.dx && 0 <= LeftY(plan, pen) <= -plan.dy &&
    pen.err == plan.dx + plan.dy - plan.dy * LeftX(plan, pen) - plan.dx * LeftY(plan, pen)
  }

  /** One iteration after the stamp: step x when `2 * err >= dy`, step y when
      `2 * err <= dx`, both tested against the error term before either step. */
  function Advance(plan: Plan, pen: Pen): Pen
  {
    var e2 := 2 * pen.err;
    var stepX, stepY := e2 >= plan.dy, e2 <= plan.dx;
    Pen(if stepX then pen.x + plan.sx else pen.x,
        if stepY then pen.y + plan.sy else pen.y,
        pen.err + (if stepX then plan.dy else 0) + (if stepY then plan.dx else 0))
  }

  lemma StartOnTrack(x0: int, y0: int, x1: int, y1: int)
    ensures OnTrack(PlanFor(x0, y0, x1, y1), Pen(x0, y0, Abs(x1 - x0) - Abs(y1 - y0)))
  {
    var plan := PlanFor(x0, y0, x1, y1);
    var pen := Pen(x0, y0, Abs(x1 - x0) - Abs(y1 - y0));
    assert LeftX(plan, pen) == plan.dx;
    assert LeftY(plan, pen) == -plan.dy;
  }

  /** On the target column with rows still to go, the x test fails. */
  lemma NoStepPastColumn(dx: int, dy: int, ly: int, err: int)
    requires dx >= 0 && ly >= 1 && dy <= -ly && err == dx + dy - dx * ly
    ensures 2 * err < dy
  {
    assert dx * ly == dx * (ly - 1) + dx;
    assert dx * (ly - 1) >= 0;
  }

  /** On the target row with columns still to go, the y test fails. */
  lemma NoStepPastRow(dx: int, dy: int, lx: int, err: int)
    requires dy <= 0 && lx >= 1 && dx >= lx && err == dx + dy - dy * lx
    ensures 2 * err > dx
  {
    assert dy * lx == dy * (lx - 1) + dy;
    assert dy * (lx - 1) <= 0;
  }

  /** Moving one unit step `s` towards a target `left * s` away leaves `left - 1`. */
  lemma UnitStep(target: int, at: int, s: int)
    requires s == 1 || s == -1
    ensures (target - (at + s)) * s == (target - at) * s - 1
  {
  }

  /** Nothing is left to go along an axis exactly when the pen is on the target. */
  lemma ZeroLeft(target: int, at: int, s: int)
    requires s == 1 || s == -1
    ensures (target - at) * s == 0 <==> target == at
  {
  }

  /** The error term after the steps taken matches the distance left. */
  lemma ErrorUpdate(dx: int, dy: int, lx: int, ly: int, err: int, mx: int, my: int)
    requires err == dx + dy - dy * lx - dx * ly
    ensures err + mx * dy + my * dx == dx + dy - dy * (lx - mx) - dx * (ly - my)
  {
    assert dy * (lx - mx) == dy * lx - mx * dy;
    assert dx * (ly - my) == dx * ly - my * dx;
  }

  /** One iteration in terms of the distances left: `lx` columns and `ly`
      rows. Neither test steps past the target, at least one of them passes,
      and the new error term matches the new distances. */
  lemma StepCounts(dx: int, dy: int, lx: int, ly: int, err: int, mx: int, my: int)
    requires dx >= 0 && dy <= 0 && 0 <= lx <= dx && 0 <= ly <= -dy && (lx > 0 || ly > 0)
    requires err == dx + dy - dy * lx - dx * ly
    requires mx == (if 2 * err >= dy then 1 else 0) && my == (if 2 * err <= dx then 1 else 0)
    ensures 0 <= lx - mx && 0 <= ly - my && mx + my >= 1
    ensures err + mx * dy + my * dx == dx + dy - dy * (lx - mx) - dx * (ly - my)
  {
    if lx == 0 {
      NoStepPastColumn(dx, dy, ly, err);
    }
    if ly == 0 {
      NoStepPastRow(dx, dy, lx, err);
    }
    ErrorUpdate(dx, dy, lx, ly, err, mx, my);
  }

  /** Away from the target, an iteration keeps the invariant, never moves
      away from the target on either axis, and moves on at least one. */
  lemma AdvanceOnTrack(plan: Plan, pen: Pen)
    requires OnTrack(plan, pen) && !AtEnd(plan, pen)
    ensures OnTrack(plan, Advance(plan, pen))
    ensures LeftX(plan, Advance(plan, pen)) <= LeftX(plan, pen)
    ensures LeftY(plan, Advance(plan, pen)) <= LeftY(plan, pen)
    ensures LeftX(plan, Advance(plan, pen)) + LeftY(plan, Advance(plan, pen)) <
            LeftX(plan, pen) + LeftY(plan, pen)
  {
    var lx, ly := LeftX(plan, pen), LeftY(plan, pen);
    var stepX, stepY := 2 * pen.err >= plan.dy, 2 * pen.err <= plan.dx;
    var mx, my := if stepX then 1 else 0, if stepY then 1 else 0;
    ZeroLeft(plan.x1, pen.x, plan.sx);
    ZeroLeft(plan.y1, pen.y, plan.sy);
    StepCounts(plan.dx, plan.dy, lx, ly, pen.err, mx, my);
    var next := Advance(plan, pen);
    if stepX {
      UnitStep(plan.x1, pen.x, plan.sx);
    }
    if stepY {
      UnitStep(plan.y1, pen.y, plan.sy);
    }
    assert LeftX(plan, next) == lx - mx;
    assert LeftY(plan, next) == ly - my;
    assert next.err == pen.err + mx * plan.dy + my * plan.dx;
  }

  /** Whether `q` lies between the pen and the target on both axes. */
  ghost predicate Ahead(plan: Plan, pen: Pen, q: Point)
  {
    0 <= (plan.x1 - q.x) * plan.sx <= LeftX(plan, pen) &&
    0 <= (plan.y1 - q.y) * plan.sy <= LeftY(plan, pen)
  }

  /** Consecutive points of a line: distinct, and at most one pixel apart
      on each axis. */
  predicate Adjacent(p: Point, q: Point)
  {
    p != q && Abs(q.x - p.x) <= 1 && Abs(q.y - p.y) <= 1
  }

  /** The points the loop stamps from the pen on, in order, following at most
      `fuel` iterations; it stops at the target. */
  function Trace(plan: Plan, pen: Pen, fuel: nat): (pts: seq<Point>)
    decreases fuel
    ensures |pts| >= 1 && pts[0] == Point(pen.x, pen.y)
  {
    if AtEnd(plan, pen) || fuel == 0 then [Point(pen.x, pen.y)]
    else [Point(pen.x, pen.y)] + Trace(plan, Advance(plan, pen), fuel - 1)
  }

  /** The loop, run from `pen`, reaches the target within `fuel` iterations. */
  ghost predicate Reaches(plan: Plan, pen: Pen, fuel: nat)
    decreases fuel
  {
    AtEnd(plan, pen) || (fuel > 0 && Reaches(plan, Advance(plan, pen), fuel - 1))
  }

  /** On track, the loop reaches the target within `LeftX + LeftY` iterations;
      the trace starts at the pen, ends at the target, moves to a neighbouring
      pixel at every step and never passes the target on either axis. */
  lemma {:induction false} TraceOnTrack(plan: Plan, pen: Pen, fuel: nat)
    requires OnTrack(plan, pen) && fuel >= LeftX(plan, pen) + LeftY(plan, pen)
    decreases fuel
    ensures Reaches(plan, pen, fuel)
    ensures var pts := Trace(plan, pen, fuel);
      pts[0] == Point(pen.x, pen.y) && pts[|pts| - 1] == Point(plan.x1, plan.y1)
    ensures var pts := Trace(plan, pen, fuel);
      forall i :: 0 <= i < |pts| ==> Ahead(plan, pen, pts[i])
    ensures var pts := Trace(plan, pen, fuel);
      forall i :: 0 <= i < |pts| - 1 ==> Adjacent(pts[i], pts[i + 1])
  {
    if !AtEnd(plan, pen) {
      var next := Advance(plan, pen);
      AdvanceOnTrack(plan, pen);
      TraceOnTrack(plan, next, fuel - 1);
      var p, rest := Point(pen.x, pen.y), Trace(plan, next, fuel - 1);
      assert Trace(plan, pen, fuel) == [p] + rest;
      assert Adjacent(p, rest[0]);
      AheadCons(plan, pen, next, rest);
      AdjacentCons(p, rest);
    }
  }

  /** The pen's own point, followed by points ahead of a pen that has not
      moved away from the target, are all ahead of the pen. */
  lemma AheadCons(plan: Plan, pen: Pen, next: Pen, rest: seq<Point>)
    requires 0 <= LeftX(plan, pen) && 0 <= LeftY(plan, pen)
    requires LeftX(plan, next) <= LeftX(plan, pen) && LeftY(plan, next) <= LeftY(plan, pen)
    requires forall i :: 0 <= i < |rest| ==> Ahead(plan, next, rest[i])
    ensures var pts := [Point(pen.x, pen.y)] + rest;
      forall i :: 0 <= i < |pts| ==> Ahead(plan, pen, pts[i])
  {
    var pts := [Point(pen.x, pen.y)] + rest;
    forall i | 0 <= i < |pts| ensures Ahead(plan, pen, pts[i]) {
      if i > 0 {
        assert pts[i] == rest[i - 1];
      }
    }
  }

  /** A point adjacent to the first of a chain of adjacent points extends it. */
  lemma AdjacentCons(p: Point, rest: seq<Point>)
    requires |rest| >= 1 && Adjacent(p, rest[0])
    requires forall i :: 0 <= i < |rest| - 1 ==> Adjacent(rest[i], rest[i + 1])
    ensures var pts := [p] + rest;
      forall i :: 0 <= i < |pts| - 1 ==> Adjacent(pts[i], pts[i + 1])
  {
    var pts := [p] + rest;
    forall i | 0 <= i < |pts| - 1 ensures Adjacent(pts[i], pts[i + 1]) {
      if i > 0 {
        assert pts[i] == rest[i - 1] && pts[i + 1] == rest[i];
      }
    }
  }

  /** Whether `q` lies in the bounding box of the segment from (x0, y0) to (x1, y1). */
  predicate InBox(q: Point, x0: int, y0: int, x1: int, y1: int)
  {
    Min(x0, x1) <= q.x <= Max(x0, x1) && Min(y0, y1) <= q.y <= Max(y0, y1)
  }

  /** A point between the start and the target lies in the bounding box. */
  lemma AheadInBox(x0: int, y0: int, x1: int, y1: int, q: Point)
    requires Ahead(PlanFor(x0, y0, x1, y1), StartPen(x0, y0, x1, y1), q)
    ensures InBox(q, x0, y0, x1, y1)
  {
    var plan := PlanFor(x0, y0, x1, y1);
    if x0 < x1 {
      assert (x1 - q.x) * plan.sx == x1 - q.x;
    } else {
      assert (x1 - q.x) * plan.sx == q.x - x1;
    }
    if y0 < y1 {
      assert (y1 - q.y) * plan.sy == y1 - q.y;
    } else {
      assert (y1 - q.y) * plan.sy == q.y - y1;
    }
  }

  /** The loop's starting state and an iteration bound for a line from
      (x0, y0) to (x1, y1). */
  function StartPen(x0: int, y0: int, x1: int, y1: int): Pen
  {
    Pen(x0, y0, Abs(x1 - x0) - Abs(y1 - y0))
  }

  function StepBound(x0: int, y0: int, x1: int, y1: int): nat
  {
    Abs(x1 - x0) + Abs(y1 - y0)
  }

  /** The points draw_line_bresenham_rgba stamps, in order: it starts at
      (x0, y0), ends exactly at (x1, y1), each step moves to a neighbouring
      pixel, and no point leaves the segment's bounding box. */
  function LinePoints(x0: int, y0: int, x1: int, y1: int): (pts: seq<Point>)
    ensures |pts| >= 1 && pts[0] == Point(x0, y0) && pts[|pts| - 1] == Point(x1, y1)
    ensures forall i :: 0 <= i < |pts| - 1 ==> Adjacent(pts[i], pts[i + 1])
    ensures forall i :: 0 <= i < |pts| ==> InBox(pts[i], x0, y0, x1, y1)
  {
    var plan, pen := PlanFor(x0, y0, x1, y1), StartPen(x0, y0, x1, y1);
    StartOnTrack(x0, y0, x1, y1);
    TraceOnTrack(plan, pen, StepBound(x0, y0, x1, y1));
    var pts := Trace(plan, pen, StepBound(x0, y0, x1, y1));
    assert forall i :: 0 <= i < |pts| ==> InBox(pts[i], x0, y0, x1, y1) by {
      forall i | 0 <= i < |pts| ensures InBox(pts[i], x0, y0, x1, y1) {
        AheadInBox(x0, y0, x1, y1, pts[i]);
      }
    }
    pts
  }

  /** The loop of draw_line_bresenham_rgba, started as it starts, reaches the
      target, and what it stamps is LinePoints. */
  lemma LineReaches(x0: int, y0: int, x1: int, y1: int)
    ensures Reaches(PlanFor(x0, y0, x1, y1), StartPen(x0, y0, x1, y1), StepBound(x0, y0, x1, y1))
    ensures LinePoints(x0, y0, x1, y1) ==
            Trace(PlanFor(x0, y0, x1, y1), StartPen(x0, y0, x1, y1), StepBound(x0, y0, x1, y1))
  {
    StartOnTrack(x0, y0, x1, y1);
    TraceOnTrack(PlanFor(x0, y0, x1, y1), StartPen(x0, y0, x1, y1), StepBound(x0, y0, x1, y1));
  }

  /** Whether byte `k` belongs to a pixel at most `half` away from `p` on both axes. */
  predicate InSquare(imgWidth: int, k: int, p: Point, half: int)
  {
    imgWidth > 0 && Abs(PixelX(imgWidth, k) - p.x) <= half && Abs(PixelY(imgWidth, k) - p.y) <= half
  }

  /** The buffer after painting the `(2 * half + 1)`-pixel square centred on `p`;
      the part of the square outside the image has no bytes and is dropped. */
  function Stamp(buf: seq<bv8>, imgWidth: int, p: Point, half: int, color: Rgb): (r: seq<bv8>)
    ensures |r| == |buf|
  {
    seq(|buf|, k requires 0 <= k < |buf| =>
      if InSquare(imgWidth, k, p, half) then Channel(color, k % 4) else buf[k])
  }

  /** The buffer after stamping every point of `pts`, first to last. */
  function StampAll(buf: seq<bv8>, pts: seq<Point>, imgWidth: int, half: int, color: Rgb): (r: seq<bv8>)
    ensures |r| == |buf|
    decreases |pts|
  {
    if pts == [] then buf
    else Stamp(StampAll(buf, pts[..|pts| - 1], imgWidth, half, color), imgWidth, pts[|pts| - 1], half, color)
  }

  /** After stamping a sequence of points in one colour, a byte holds that
      colour's channel (alpha 255 for the fourth byte) exactly when some
      point's square covers its pixel; every other byte is unchanged. */
  lemma {:induction false} StampAllBytes(buf: seq<bv8>, pts: seq<Point>, imgWidth: int, half: int, color: Rgb, k: int)
    requires 0 <= k < |buf|
    ensures StampAll(buf, pts, imgWidth, half, color)[k] ==
      if exists i :: 0 <= i < |pts| && InSquare(imgWidth, k, pts[i], half) then Channel(color, k % 4) else buf[k]
    decreases |pts|
  {
    if pts != [] {
      var n := |pts| - 1;
      var front := pts[..n];
      StampAllBytes(buf, front, imgWidth, half, color, k);
      if exists i :: 0 <= i < n && InSquare(imgWidth, k, front[i], half) {
        var i :| 0 <= i < n && InSquare(imgWidth, k, front[i], half);
        assert pts[i] == front[i];
      }
      if exists i :: 0 <= i < |pts| && InSquare(imgWidth, k, pts[i], half) {
        var i :| 0 <= i < |pts| && InSquare(imgWidth, k, pts[i], half);
        if i < n {
          assert front[i] == pts[i];
        }
      }
    }
  }

  /** The bytes stamped so far by the square loops, which visit offsets
      row by row (`oy` outer, `ox` inner) from `-half` up to `half`. */
  ghost predicate StampedBefore(imgWidth: int, k: int, p: Point, half: int, oy: int, ox: int)
  {
    InSquare(imgWidth, k, p, half) &&
    (PixelY(imgWidth, k) - p.y < oy || (PixelY(imgWidth, k) - p.y == oy && PixelX(imgWidth, k) - p.x < ox))
  }

  /** The square stamp of draw_line_bresenham_rgba: every in-image pixel at
      most `half` from (cx, cy) becomes opaque `color`, nothing else changes. */
  method StampSquare(buffer: array<bv8>, imgWidth: int, imgHeight: int, cx: int, cy: int, half: int, color: Rgb)
    requires imgWidth >= 0 && imgHeight >= 0 && buffer.Length == imgWidth * imgHeight * 4
    requires half >= 0
    modifies buffer
    ensures buffer[..] == Stamp(old(buffer[..]), imgWidth, Point(cx, cy), half, color)
  {
    ghost var p := Point(cx, cy);
    for dy := -half to half + 1
      invariant forall k :: 0 <= k < buffer.Length ==>
        buffer[k] == if StampedBefore(imgWidth, k, p, half, dy, -half) then Channel(color, k % 4) else old(buffer[k])
    {
      for dx := -half to half + 1
        invariant forall k :: 0 <= k < buffer.Length ==>
          buffer[k] == if StampedBefore(imgWidth, k, p, half, dy, dx) then Channel(color, k % 4) else old(buffer[k])
      {
        var px := cx + dx;
        var py := cy + dy;
        ghost var before := buffer[..];
        if px >= 0 && py >= 0 && px < imgWidth && py < imgHeight {
          var idx := (py * imgWidth + px) * 4;
          ByteIndexCoords(imgWidth, imgHeight, px, py, 3);
          PutPixel(buffer, idx, color);
          forall k | 0 <= k < buffer.Length
            ensures buffer[k] == if StampedBefore(imgWidth, k, p, half, dy, dx + 1) then Channel(color, k % 4) else old(buffer[k])
          {
            ByteCoordsOnto(imgWidth, imgHeight, k);
            if idx <= k < idx + 4 {
              ByteIndexCoords(imgWidth, imgHeight, px, py, k - idx);
            }
          }
        } else {
          forall k | 0 <= k < buffer.Length
            ensures buffer[k] == if StampedBefore(imgWidth, k, p, half, dy, dx + 1) then Channel(color, k % 4) else old(buffer[k])
          {
            ByteCoordsOnto(imgWidth, imgHeight, k);
          }
        }
      }
    }
  }

  /** The end of an iteration: the x step and the y step, both decided by
      the error term before either is taken. */
  method AdvancePen(ghost plan: Plan, x: int, y: int, err: int, dx: int, dy: int, sx: int, sy: int)
    returns (x': int, y': int, err': int)
    requires plan == Plan(plan.x1, plan.y1, dx, dy, sx, sy)
    ensures Pen(x', y', err') == Advance(plan, Pen(x, y, err))
  {
    x', y', err' := x, y, err;
    var e2 := 2 * err;
    if e2 >= dy {
      err' := err' + dy;
      x' := x' + sx;
    }
    if e2 <= dx {
      err' := err' + dx;
      y' := y' + sy;
    }
  }

  /** One iteration of the loop, seen on its trace: away from the target the
      trace of the next pen is the rest of the line. */
  lemma TraceAdvance(plan: Plan, pen: Pen, fuel: nat, line: seq<Point>, i: int)
    requires 0 <= i < |line| && Reaches(plan, pen, fuel) && !AtEnd(plan, pen)
    requires Trace(plan, pen, fuel) == line[i..]
    ensures fuel > 0 && i + 1 < |line| && Reaches(plan, Advance(plan, pen), fuel - 1)
    ensures Trace(plan, Advance(plan, pen), fuel - 1) == line[i + 1..]
  {
    assert line[i..][1..] == line[i + 1..];
  }

  /** At the target the trace is the target alone, so it was the last point. */
  lemma TraceEnd(plan: Plan, pen: Pen, fuel: nat, line: seq<Point>, i: int)
    requires 0 <= i < |line| && AtEnd(plan, pen) && Trace(plan, pen, fuel) == line[i..]
    ensures line[..i + 1] == line
  {
    assert |line[i..]| == 1;
  }

  /** Stamping one more point of a sequence stamps its prefix, then that point. */
  lemma StampAllNext(buf: seq<bv8>, pts: seq<Point>, i: int, imgWidth: int, half: int, color: Rgb)
    requires 0 <= i < |pts|
    ensures StampAll(buf, pts[..i + 1], imgWidth, half, color) ==
            Stamp(StampAll(buf, pts[..i], imgWidth, half, color), imgWidth, pts[i], half, color)
  {
    assert pts[..i + 1][..i] == pts[..i];
  }

  /** `thickness / 2` on an i32: the quotient is truncated toward zero. */
  function Half(thickness: int): (half: int)
    ensures thickness >= 0 ==> 0 <= half && 2 * half <= thickness < 2 * half + 2
    ensures thickness < 0 ==> half <= 0 && 2 * half - 2 < thickness <= 2 * half
  {
    if thickness >= 0 then thickness / 2 else -((-thickness) / 2)
  }

  /** The stamp at the top of an iteration: the current point, which is
      point `i` of the line, joins the stamped prefix. */
  method StampPoint(buffer: array<bv8>, imgWidth: int, imgHeight: int, x: int, y: int, color: Rgb, thickness: int,
                    ghost init: seq<bv8>, ghost line: seq<Point>, ghost i: int)
    requires imgWidth >= 0 && imgHeight >= 0 && buffer.Length == imgWidth * imgHeight * 4
    requires 0 <= i < |line| && line[i] == Point(x, y)
    requires buffer[..] == StampAll(init, line[..i], imgWidth, Half(thickness), color)
    modifies buffer
    ensures buffer[..] == StampAll(init, line[..i + 1], imgWidth, Half(thickness), color)
  {
    var half := if thickness >= 0 then thickness / 2 else -((-thickness) / 2);
    if half >= 0 {
      StampSquare(buffer, imgWidth, imgHeight, x, y, half, color);
    } else {
      // The offset range -half..=half is empty.
      assert buffer[..] == Stamp(buffer[..], imgWidth, Point(x, y), half, color);
    }
    StampAllNext(init, line, i, imgWidth, half, color);
  }

  /** draw_line_bresenham_rgba: stamps every point of the Bresenham line from
      (x0, y0) to (x1, y1), first to last, with a square of side
      `2 * (thickness / 2) + 1`; a thickness below -1 stamps nothing. */
  method DrawLine(buffer: array<bv8>, imgWidth: int, imgHeight: int,
                  x0: int, y0: int, x1: int, y1: int, color: Rgb, thickness: int)
    requires imgWidth >= 0 && imgHeight >= 0 && buffer.Length == imgWidth * imgHeight * 4
    modifies buffer
    ensures buffer[..] == StampAll(old(buffer[..]), LinePoints(x0, y0, x1, y1), imgWidth, Half(thickness), color)
  {
    var x, y := x0, y0;
    var dx := Abs(x1 - x0);
    var sx := if x0 < x1 then 1 else -1;
    var dy := -Abs(y1 - y0);
    var sy := if y0 < y1 then 1 else -1;
    var err := dx + dy;
    ghost var plan := PlanFor(x0, y0, x1, y1);
    assert plan == Plan(x1, y1, dx, dy, sx, sy);
    assert Pen(x, y, err) == StartPen(x0, y0, x1, y1);
    ghost var fuel := StepBound(x0, y0, x1, y1);
    ghost var line := LinePoints(x0, y0, x1, y1);
    ghost var init := buffer[..];
    ghost var i := 0;
    LineReaches(x0, y0, x1, y1);
    assert line[0..] == line && line[..0] == [];
    while true
      invariant 0 <= i < |line| && Reaches(plan, Pen(x, y, err), fuel)
      invariant Trace(plan, Pen(x, y, err), fuel) == line[i..]
      invariant buffer[..] == StampAll(init, line[..i], imgWidth, Half(thickness), color)
      decreases fuel
    {
      StampPoint(buffer, imgWidth, imgHeight, x, y, color, thickness, init, line, i);
      if x == x1 && y == y1 {
        TraceEnd(plan, Pen(x, y, err), fuel, line, i);
        break;
      }
      TraceAdvance(plan, Pen(x, y, err), fuel, line, i);
      x, y, err := AdvancePen(plan, x, y, err, dx, dy, sx, sy);
      i, fuel := i + 1, fuel - 1;
    }
  }
}
