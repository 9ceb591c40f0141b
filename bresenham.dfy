/** The cells `DrawLine` plots, following its integer Bresenham loop step by
    step: the error term starts at dx + dy (dy is minus the vertical
    distance), and each round doubles it once and uses that doubled value
    for both the horizontal test (>= dy) and the vertical test (<= dx). */
module Bresenham {
  import opened Util
  import opened Raster

  /** What stays fixed while one line is drawn: the end point, the two
      distances (dy not positive) and the two step directions. */
  datatype Course = Course(x2: int, y2: int, dx: int, dy: int, sx: int, sy: int)

  function CourseOf(x1: int, y1: int, x2: int, y2: int): Course
  {
    Course(x2, y2, Abs(x2 - x1), -(Abs(y2 - y1) as int),
           if x1 > x2 then -1 else 1, if y1 > y2 then -1 else 1)
  }

  /** Cells still to go along each axis. */
  function RestX(c: Course, x: int): int { if c.sx < 0 then x - c.x2 else c.x2 - x }
  function RestY(c: Course, y: int): int { if c.sy < 0 then y - c.y2 else c.y2 - y }

  /** The loop invariant of the rasteriser: neither axis has overshot, and
      the error term records how far the plotted cell is from the ideal line. */
  ghost predicate OnCourse(c: Course, x: int, y: int, err: int)
  {
    c.dx >= 0 && c.dy <= 0 && (c.sx == 1 || c.sx == -1) && (c.sy == 1 || c.sy == -1)
    && 0 <= RestX(c, x) <= c.dx && 0 <= RestY(c, y) <= -c.dy
    && err == c.dx + c.dy - c.dy * RestX(c, x) - c.dx * RestY(c, y)
  }

  /** One round of the loop after the current cell is plotted. */
  function Step(c: Course, x: int, y: int, err: int): (int, int, int)
  {
    var e2 := 2 * err;
    var x', err' := if e2 >= c.dy then x + c.sx else x, if e2 >= c.dy then err + c.dy else err;
    var y', err'' := if e2 <= c.dx then y + c.sy else y, if e2 <= c.dx then err' + c.dx else err';
    (x', y', err'')
  }

  /** q is p moved one cell toward the end point along x, along y, or both. */
  predicate Advance(c: Course, p: Point, q: Point)
  {
    (q.0 == p.0 || q.0 == p.0 + c.sx) && (q.1 == p.1 || q.1 == p.1 + c.sy) && q != p
  }

  /** A round starting on course away from the end point stays on course,
      moves one cell toward the end point and strictly shortens the rest. */
  lemma StepOnCourse(c: Course, x: int, y: int, err: int)
    requires OnCourse(c, x, y, err) && (x, y) != (c.x2, c.y2)
    ensures var (x', y', err') := Step(c, x, y, err);
      OnCourse(c, x', y', err') && Advance(c, (x, y), (x', y'))
      && RestX(c, x') + RestY(c, y') < RestX(c, x) + RestY(c, y)
  {
    var rx, ry := RestX(c, x), RestY(c, y);
    var e2 := 2 * err;
    ErrorBounds(c.dx, c.dy, rx, ry, err);
    var (x', y', err') := Step(c, x, y, err);
    var stepX, stepY := e2 >= c.dy, e2 <= c.dx;
    var rx' := if stepX then rx - 1 else rx;
    var ry' := if stepY then ry - 1 else ry;
    assert RestX(c, x') == rx' && RestY(c, y') == ry';
    ErrorAfterSteps(c.dx, c.dy, rx, ry, err, stepX, stepY);
    assert err' == (if stepX then c.dy else 0) + (if stepY then c.dx else 0) + err;
  }

  /** The arithmetic behind the step: no axis is stepped once it is done,
      and at least one is stepped each round. */
  lemma ErrorBounds(dx: int, dy: int, rx: int, ry: int, err: int)
    requires dx >= 0 && dy <= 0 && 0 <= rx <= dx && 0 <= ry <= -dy && rx + ry > 0
    requires err == dx + dy - dy * rx - dx * ry
    ensures rx == 0 ==> 2 * err < dy
    ensures ry == 0 ==> 2 * err > dx
    ensures 2 * err >= dy || 2 * err <= dx
  {
    if rx == 0 {
      MulAtLeast(dx, ry);
    }
    if ry == 0 {
      MulAtLeast(-dy, rx);
    }
  }

  lemma ErrorAfterSteps(dx: int, dy: int, rx: int, ry: int, err: int, stepX: bool, stepY: bool)
    requires err == dx + dy - dy * rx - dx * ry
    ensures var rx', ry' := if stepX then rx - 1 else rx, if stepY then ry - 1 else ry;
      (if stepX then dy else 0) + (if stepY then dx else 0) + err == dx + dy - dy * rx' - dx * ry'
  {
    MulPred(dy, rx);
    MulPred(dx, ry);
  }

  lemma MulAtLeast(a: int, b: int)
    requires a >= 0 && b >= 1
    ensures a * b >= a
  {
    assert a * b == a * (b - 1) + a;
  }

  lemma MulPred(a: int, b: int)
    ensures a * (b - 1) == a * b - a
  {
  }

  /** The cells plotted from (x, y) on, in drawing order. */
  ghost function Plot(c: Course, x: int, y: int, err: int): (r: seq<Point>)
    requires OnCourse(c, x, y, err)
    ensures |r| >= 1 && r[0] == (x, y) && r[|r| - 1] == (c.x2, c.y2)
    ensures forall i :: 0 <= i < |r| - 1 ==> Advance(c, r[i], r[i + 1])
    ensures forall i :: 0 <= i < |r| ==>
      0 <= RestX(c, r[i].0) <= RestX(c, x) && 0 <= RestY(c, r[i].1) <= RestY(c, y)
    decreases RestX(c, x) + RestY(c, y)
  {
    if (x, y) == (c.x2, c.y2) then [(x, y)]
    else
      StepOnCourse(c, x, y, err);
      var (x', y', err') := Step(c, x, y, err);
      [(x, y)] + Plot(c, x', y', err')
  }

  /** The loop states (x, y, err) from (x, y, err) on: each is the round
      applied to the one before, and only the last is at the end point. */
  ghost function States(c: Course, x: int, y: int, err: int): (r: seq<(int, int, int)>)
    requires OnCourse(c, x, y, err)
    ensures |r| >= 1 && r[0] == (x, y, err)
    ensures (r[|r| - 1].0, r[|r| - 1].1) == (c.x2, c.y2)
    decreases RestX(c, x) + RestY(c, y)
  {
    if (x, y) == (c.x2, c.y2) then [(x, y, err)]
    else
      StepOnCourse(c, x, y, err);
      var (x', y', err') := Step(c, x, y, err);
      [(x, y, err)] + States(c, x', y', err')
  }

  /** Every state but the last is away from the end point, and its round
      gives the next state. */
  lemma {:induction false} StatesStep(c: Course, x: int, y: int, err: int, j: int)
    requires OnCourse(c, x, y, err)
    requires 0 <= j < |States(c, x, y, err)| - 1
    ensures var r := States(c, x, y, err);
      (r[j].0, r[j].1) != (c.x2, c.y2) && r[j + 1] == Step(c, r[j].0, r[j].1, r[j].2)
    decreases RestX(c, x) + RestY(c, y)
  {
    StepOnCourse(c, x, y, err);
    var (x', y', err') := Step(c, x, y, err);
    if j > 0 {
      StatesStep(c, x', y', err', j - 1);
    }
  }

  /** The plotted cells are the positions of the loop states. */
  lemma {:induction false} PlotStates(c: Course, x: int, y: int, err: int)
    requires OnCourse(c, x, y, err)
    ensures var p, s := Plot(c, x, y, err), States(c, x, y, err);
      |p| == |s| && forall j :: 0 <= j < |p| ==> p[j] == (s[j].0, s[j].1)
    decreases RestX(c, x) + RestY(c, y)
  {
    if (x, y) != (c.x2, c.y2) {
      StepOnCourse(c, x, y, err);
      var (x', y', err') := Step(c, x, y, err);
      PlotStates(c, x', y', err');
    }
  }

  /** One round of `Plot`: the current cell, then the cells from the next one. */
  lemma PlotStep(c: Course, x: int, y: int, err: int)
    requires OnCourse(c, x, y, err) && (x, y) != (c.x2, c.y2)
    ensures var (x', y', err') := Step(c, x, y, err);
      OnCourse(c, x', y', err') && RestX(c, x') + RestY(c, y') < RestX(c, x) + RestY(c, y)
      && Plot(c, x, y, err) == [(x, y)] + Plot(c, x', y', err')
  {
    StepOnCourse(c, x, y, err);
  }

  lemma StartOnCourse(x1: int, y1: int, x2: int, y2: int)
    ensures var c := CourseOf(x1, y1, x2, y2); OnCourse(c, x1, y1, c.dx + c.dy)
  {
  }

  /** The loop states `DrawLine(x1, y1, x2, y2)` passes through. */
  ghost function LineStates(x1: int, y1: int, x2: int, y2: int): seq<(int, int, int)>
  {
    StartOnCourse(x1, y1, x2, y2);
    var c := CourseOf(x1, y1, x2, y2);
    States(c, x1, y1, c.dx + c.dy)
  }

  lemma LineStatesStep(x1: int, y1: int, x2: int, y2: int, j: int)
    requires 0 <= j < |LineStates(x1, y1, x2, y2)| - 1
    ensures var r, c := LineStates(x1, y1, x2, y2), CourseOf(x1, y1, x2, y2);
      (r[j].0, r[j].1) != (x2, y2) && r[j + 1] == Step(c, r[j].0, r[j].1, r[j].2)
  {
    StartOnCourse(x1, y1, x2, y2);
    var c := CourseOf(x1, y1, x2, y2);
    StatesStep(c, x1, y1, c.dx + c.dy, j);
  }

  lemma LineFromStates(x1: int, y1: int, x2: int, y2: int)
    ensures var l, s := Line(x1, y1, x2, y2), LineStates(x1, y1, x2, y2);
      |l| == |s| && forall j :: 0 <= j < |l| ==> l[j] == (s[j].0, s[j].1)
  {
    StartOnCourse(x1, y1, x2, y2);
    var c := CourseOf(x1, y1, x2, y2);
    PlotStates(c, x1, y1, c.dx + c.dy);
  }

  /** Cell k of the line is where loop state k stands. */
  lemma LineAt(x1: int, y1: int, x2: int, y2: int, k: int)
    requires 0 <= k < |LineStates(x1, y1, x2, y2)|
    ensures var l, s := Line(x1, y1, x2, y2), LineStates(x1, y1, x2, y2);
      |l| == |s| && l[k] == (s[k].0, s[k].1)
  {
    LineFromStates(x1, y1, x2, y2);
  }

  /** A state away from the end point has a successor, its round. */
  lemma LineNext(x1: int, y1: int, x2: int, y2: int, k: int)
    requires 0 <= k < |LineStates(x1, y1, x2, y2)|
    requires (LineStates(x1, y1, x2, y2)[k].0, LineStates(x1, y1, x2, y2)[k].1) != (x2, y2)
    ensures var s := LineStates(x1, y1, x2, y2);
      k + 1 < |s| && s[k + 1] == Step(CourseOf(x1, y1, x2, y2), s[k].0, s[k].1, s[k].2)
  {
    LineStatesStep(x1, y1, x2, y2, k);
  }

  /** Only the last state stands at the end point. */
  lemma LineLast(x1: int, y1: int, x2: int, y2: int, k: int)
    requires 0 <= k < |LineStates(x1, y1, x2, y2)|
    requires (LineStates(x1, y1, x2, y2)[k].0, LineStates(x1, y1, x2, y2)[k].1) == (x2, y2)
    ensures k == |LineStates(x1, y1, x2, y2)| - 1
  {
    if k < |LineStates(x1, y1, x2, y2)| - 1 {
      LineStatesStep(x1, y1, x2, y2, k);
    }
  }

  /** The cells `DrawLine(x1, y1, x2, y2)` plots, in drawing order. */
  ghost function Line(x1: int, y1: int, x2: int, y2: int): seq<Point>
  {
    StartOnCourse(x1, y1, x2, y2);
    var c := CourseOf(x1, y1, x2, y2);
    Plot(c, x1, y1, c.dx + c.dy)
  }

  /** The error term of a state the loop reaches stays within half the
      longer distance of the ideal line: err - dx - dy measures how far the
      cell is off the line through the end point. */
  ghost predicate NearLine(c: Course, err: int)
  {
    var m := Max(c.dx, -c.dy);
    -m <= 2 * (err - c.dx - c.dy) <= m
  }

  /** A round keeps the error term near the line. */
  lemma StepNearLine(c: Course, x: int, y: int, err: int)
    requires OnCourse(c, x, y, err) && NearLine(c, err) && (x, y) != (c.x2, c.y2)
    ensures NearLine(c, Step(c, x, y, err).2)
  {
  }

  /** Near the line, every round steps along the longer axis, so the cells
      still to plot are one more than the distance left along that axis. */
  lemma {:induction false} PlotLength(c: Course, x: int, y: int, err: int)
    requires OnCourse(c, x, y, err) && NearLine(c, err)
    ensures c.dx >= -c.dy ==> |Plot(c, x, y, err)| == RestX(c, x) + 1
    ensures c.dx < -c.dy ==> |Plot(c, x, y, err)| == RestY(c, y) + 1
    decreases RestX(c, x) + RestY(c, y)
  {
    if (x, y) != (c.x2, c.y2) {
      PlotStep(c, x, y, err);
      StepNearLine(c, x, y, err);
      var (x', y', err') := Step(c, x, y, err);
      PlotLength(c, x', y', err');
      if c.dx >= -c.dy {
        assert 2 * err >= c.dy;
        assert RestX(c, x') == RestX(c, x) - 1;
      } else {
        assert 2 * err <= c.dx;
        assert RestY(c, y') == RestY(c, y) - 1;
      }
    }
  }

  /** The line has max(|x2 - x1|, |y2 - y1|) + 1 cells. */
  lemma LineLength(x1: int, y1: int, x2: int, y2: int)
    ensures |Line(x1, y1, x2, y2)| == Max(Abs(x2 - x1), Abs(y2 - y1)) + 1
  {
    StartOnCourse(x1, y1, x2, y2);
    var c := CourseOf(x1, y1, x2, y2);
    PlotLength(c, x1, y1, c.dx + c.dy);
  }

  /** No cell is farther from the end point, along either axis, than the
      cell before it. */
  lemma LineApproaches(x1: int, y1: int, x2: int, y2: int)
    ensures var l := Line(x1, y1, x2, y2);
      forall i :: 0 <= i < |l| - 1 ==>
        Abs(l[i + 1].0 - x2) <= Abs(l[i].0 - x2) && Abs(l[i + 1].1 - y2) <= Abs(l[i].1 - y2)
  {
    StartOnCourse(x1, y1, x2, y2);
    var c := CourseOf(x1, y1, x2, y2);
    var l := Line(x1, y1, x2, y2);
    forall i | 0 <= i < |l| - 1
      ensures Abs(l[i + 1].0 - x2) <= Abs(l[i].0 - x2) && Abs(l[i + 1].1 - y2) <= Abs(l[i].1 - y2)
    {
      assert Advance(c, l[i], l[i + 1]);
      assert 0 <= RestX(c, l[i].0) && 0 <= RestY(c, l[i].1);
      assert 0 <= RestX(c, l[i + 1].0) && 0 <= RestY(c, l[i + 1].1);
    }
  }

  /** The line starts at its first end point and finishes at its second; each
      cell is a neighbour (8-connected) of the one before; and every cell lies
      in the bounding box of the two end points. */
  lemma LineShape(x1: int, y1: int, x2: int, y2: int)
    ensures var l := Line(x1, y1, x2, y2);
      |l| >= 1 && l[0] == (x1, y1) && l[|l| - 1] == (x2, y2)
      && (forall i :: 0 <= i < |l| - 1 ==>
            Abs(l[i + 1].0 - l[i].0) <= 1 && Abs(l[i + 1].1 - l[i].1) <= 1 && l[i + 1] != l[i])
      && (forall i :: 0 <= i < |l| ==>
            Min(x1, x2) <= l[i].0 <= Max(x1, x2) && Min(y1, y2) <= l[i].1 <= Max(y1, y2))
  {
    StartOnCourse(x1, y1, x2, y2);
    var c := CourseOf(x1, y1, x2, y2);
    var l := Line(x1, y1, x2, y2);
    forall i | 0 <= i < |l|
      ensures Min(x1, x2) <= l[i].0 <= Max(x1, x2) && Min(y1, y2) <= l[i].1 <= Max(y1, y2)
    {
      assert 0 <= RestX(c, l[i].0) <= RestX(c, x1);
      assert 0 <= RestY(c, l[i].1) <= RestY(c, y1);
    }
  }

  /** The coordinate i cells from a in direction s. */
  function Toward(a: int, s: int, i: int): int { if s < 0 then a - i else a + i }

  /** Going i cells from a is one cell and then i-1 more. */
  lemma TowardStep(a: int, s: int, i: int)
    requires (s == 1 || s == -1) && i >= 1
    ensures Toward(a + s, s, i - 1) == Toward(a, s, i)
  {
  }

  /** Along a horizontal remainder the error term stays dx and every round is
      one step along x. */
  lemma {:induction false} FlatPlot(c: Course, x: int, y: int)
    requires OnCourse(c, x, y, c.dx) && c.dy == 0
    ensures var l := Plot(c, x, y, c.dx);
      |l| == RestX(c, x) + 1 && forall i :: 0 <= i < |l| ==> l[i] == (Toward(x, c.sx, i), y)
    decreases RestX(c, x)
  {
    if (x, y) != (c.x2, c.y2) {
      StepOnCourse(c, x, y, c.dx);
      assert Step(c, x, y, c.dx) == (x + c.sx, y, c.dx);
      FlatPlot(c, x + c.sx, y);
    }
  }

  /** Along a vertical remainder every round is one step along y. */
  lemma {:induction false} UprightPlot(c: Course, x: int, y: int)
    requires OnCourse(c, x, y, c.dy) && c.dx == 0
    ensures var l := Plot(c, x, y, c.dy);
      |l| == RestY(c, y) + 1 && forall i :: 0 <= i < |l| ==> l[i] == (x, Toward(y, c.sy, i))
    decreases RestY(c, y)
  {
    if (x, y) != (c.x2, c.y2) {
      StepOnCourse(c, x, y, c.dy);
      assert Step(c, x, y, c.dy) == (x, y + c.sy, c.dy);
      UprightPlot(c, x, y + c.sy);
    }
  }

  /** On a 45-degree remainder the error term stays 0 and every round is a
      diagonal step. */
  lemma {:induction false} DiagonalPlot(c: Course, x: int, y: int)
    requires OnCourse(c, x, y, 0) && c.dx == -c.dy && RestX(c, x) == RestY(c, y)
    ensures var l := Plot(c, x, y, 0);
      |l| == RestX(c, x) + 1
      && forall i :: 0 <= i < |l| ==> l[i] == (Toward(x, c.sx, i), Toward(y, c.sy, i))
    decreases RestX(c, x)
  {
    if (x, y) != (c.x2, c.y2) {
      StepOnCourse(c, x, y, 0);
      assert Step(c, x, y, 0) == (x + c.sx, y + c.sy, 0);
      DiagonalPlot(c, x + c.sx, y + c.sy);
      var l, rest := Plot(c, x, y, 0), Plot(c, x + c.sx, y + c.sy, 0);
      assert l == [(x, y)] + rest;
      DiagonalCons(l, rest, x, y, c.sx, c.sy);
    }
  }

  /** A diagonal run from the cell after (x, y), with (x, y) put in front,
      is the diagonal run from (x, y). */
  lemma DiagonalCons(l: seq<Point>, rest: seq<Point>, x: int, y: int, sx: int, sy: int)
    requires (sx == 1 || sx == -1) && (sy == 1 || sy == -1) && l == [(x, y)] + rest
    requires forall i :: 0 <= i < |rest| ==> rest[i] == (Toward(x + sx, sx, i), Toward(y + sy, sy, i))
    ensures forall i :: 0 <= i < |l| ==> l[i] == (Toward(x, sx, i), Toward(y, sy, i))
  {
    forall i | 1 <= i < |l|
      ensures l[i] == (Toward(x, sx, i), Toward(y, sy, i))
    {
      assert l[i] == rest[i - 1];
      TowardStep(x, sx, i);
      TowardStep(y, sy, i);
    }
  }

  /** A horizontal line plots exactly the cells `DrawHLine` would. */
  lemma HorizontalLine(x1: int, x2: int, y: int)
    ensures PointsOf(Line(x1, y, x2, y)) == HSpan(x1, x2, y)
  {
    var c := CourseOf(x1, y, x2, y);
    StartOnCourse(x1, y, x2, y);
    FlatPlot(c, x1, y);
    RunIsHSpan(Line(x1, y, x2, y), x1, x2, y);
  }

  /** A vertical line plots exactly the cells `DrawVLine` would. */
  lemma VerticalLine(x: int, y1: int, y2: int)
    ensures PointsOf(Line(x, y1, x, y2)) == VSpan(x, y1, y2)
  {
    var c := CourseOf(x, y1, x, y2);
    StartOnCourse(x, y1, x, y2);
    UprightPlot(c, x, y1);
    RunIsVSpan(Line(x, y1, x, y2), x, y1, y2);
  }

  /** Cells one apart along row y from a to b cover the span from a to b. */
  lemma RunIsHSpan(l: seq<Point>, a: int, b: int, y: int)
    requires |l| == Abs(b - a) + 1
    requires forall i :: 0 <= i < |l| ==> l[i] == (Toward(a, if a > b then -1 else 1, i), y)
    ensures PointsOf(l) == HSpan(a, b, y)
  {
    forall p: Point
      ensures p in PointsOf(l) <==> p in HSpan(a, b, y)
    {
      if p in HSpan(a, b, y) {
        assert l[Abs(p.0 - a)] == p;
      }
    }
  }

  /** Cells one apart along column x from a to b cover the span from a to b. */
  lemma RunIsVSpan(l: seq<Point>, x: int, a: int, b: int)
    requires |l| == Abs(b - a) + 1
    requires forall i :: 0 <= i < |l| ==> l[i] == (x, Toward(a, if a > b then -1 else 1, i))
    ensures PointsOf(l) == VSpan(x, a, b)
  {
    forall p: Point
      ensures p in PointsOf(l) <==> p in VSpan(x, a, b)
    {
      if p in VSpan(x, a, b) {
        assert l[Abs(p.1 - a)] == p;
      }
    }
  }

  /** A 45-degree line plots one cell per diagonal step and no others. */
  lemma DiagonalLine(x1: int, y1: int, x2: int, y2: int)
    requires Abs(x2 - x1) == Abs(y2 - y1)
    ensures var l := Line(x1, y1, x2, y2); var c := CourseOf(x1, y1, x2, y2);
      |l| == Abs(x2 - x1) + 1
      && forall i :: 0 <= i < |l| ==> l[i] == (Toward(x1, c.sx, i), Toward(y1, c.sy, i))
  {
    var c := CourseOf(x1, y1, x2, y2);
    StartOnCourse(x1, y1, x2, y2);
    DiagonalPlot(c, x1, y1);
  }

  /** The diagonal example of the package's tests: the line from (0, 0) to
      (20, 20) passes through (10, 10). */
  lemma DiagonalExample()
    ensures (10, 10) in Line(0, 0, 20, 20)
  {
    DiagonalLine(0, 0, 20, 20);
    assert Line(0, 0, 20, 20)[10] == (10, 10);
  }
}
