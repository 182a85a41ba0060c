/**
 * Path reconstruction: the second loop of `Outline#to_svg_path` (lib/freetype/api.rb:211-261).
 * Each contour of quadratic outline points becomes SVG path commands M, L and Q, with the
 * implied on-curve points between two control points filled in; one `z` ends the whole path.
 * Every y coordinate is negated (font units point up, SVG units point down).
 */
module PathBuilder {
  import opened Points
  import opened Wrappers

  /** One entry of the Ruby `path` array: `['M', x, y]`, `['L', x, y]`, `['Q', cx, cy, x, y]`, `['z']`. */
  datatype Command =
    | Move(x: int, y: int)
    | Line(x: int, y: int)
    | Quad(cx: int, cy: int, x: int, y: int)
    | Close

  function Last(c: seq<Point>): Point
    requires |c| > 0
  {
    c[|c| - 1]
  }

  /** Where a drawing command leaves the pen (for M, L and Q). */
  function EndPoint(cmd: Command): (int, int)
    requires !cmd.Close?
  {
    match cmd
    case Move(x, y) => (x, y)
    case Line(x, y) => (x, y)
    case Quad(_, _, x, y) => (x, y)
  }

  /** A point's position in SVG coordinates: y negated. */
  function Svg(p: Point): (int, int) {
    (p.x, -p.y)
  }

  /**
   * `first_pt` after lines 213-227: the first point when it is on the curve; otherwise the
   * last point when that one is; otherwise a point built with tag 0 halfway (rounded down)
   * between the first and the last point.
   */
  function StartPoint(c: seq<Point>): (s: Point)
    requires |c| > 0
    ensures s == c[0] || s == Last(c) || s.tag == 0
    ensures OnCurve(s) <==> OnCurve(c[0]) || OnCurve(Last(c))
  {
    if OnCurve(c[0]) then c[0]
    else if OnCurve(Last(c)) then Last(c)
    else Point(0, (c[0].x + Last(c).x) / 2, (c[0].y + Last(c).y) / 2)
  }

  /** `start`: the index at which the walk begins. */
  function FirstStep(c: seq<Point>): nat
    requires |c| > 0
  {
    if OnCurve(c[0]) then 1 else 0
  }

  /** `prev_pt` at index j of the walk. */
  function Prev(c: seq<Point>, j: nat): Point
    requires j < |c|
  {
    if j == 0 then StartPoint(c) else c[j - 1]
  }

  /** What `curve_pt` holds once point p has been walked over: p itself when p is a control point. */
  function Pending(p: Point): Option<Point> {
    if OnCurve(p) then None else Some(p)
  }

  /**
   * The commands of one walk step from `prev` to `pt` (lines 239-251): on-on draws a line
   * to pt; on-off draws nothing yet; off-off draws a curve controlled by prev to the implied
   * on-curve midpoint; off-on draws a curve controlled by prev (the pending control point) to pt.
   */
  function Step(prev: Point, pt: Point): (cmds: seq<Command>)
    ensures |cmds| <= 1 && forall k :: 0 <= k < |cmds| ==> cmds[k].Line? || cmds[k].Quad?
    ensures cmds == [] <==> OnCurve(prev) && !OnCurve(pt)
    ensures OnCurve(prev) && OnCurve(pt) ==> cmds == [Line(pt.x, -pt.y)]
    ensures OnCurve(pt) ==> EndPoint(cmds[0]) == Svg(pt)
    ensures !OnCurve(prev) ==> cmds[0].Quad? && (cmds[0].cx, cmds[0].cy) == Svg(prev)
    ensures !OnCurve(prev) && !OnCurve(pt) ==>
              EndPoint(cmds[0]) == ((prev.x + pt.x) / 2, -((prev.y + pt.y) / 2))
  {
    if OnCurve(prev) && OnCurve(pt) then [Line(pt.x, -pt.y)]
    else if OnCurve(prev) then []
    else if !OnCurve(pt) then [Quad(prev.x, -prev.y, (prev.x + pt.x) / 2, -((prev.y + pt.y) / 2))]
    else [Quad(prev.x, -prev.y, pt.x, -pt.y)]
  }

  /** The commands of walk steps lo..hi-1, in order. */
  function Walk(c: seq<Point>, lo: nat, hi: nat): (cmds: seq<Command>)
    requires lo <= hi <= |c|
    ensures |cmds| <= hi - lo
    ensures forall k :: 0 <= k < |cmds| ==> cmds[k].Line? || cmds[k].Quad?
    decreases hi
  {
    if hi == lo then [] else Walk(c, lo, hi - 1) + Step(Prev(c, hi - 1), c[hi - 1])
  }

  /** Appending one step's commands after `done` extends the walk by one step. */
  lemma WalkStep(c: seq<Point>, lo: nat, j: nat, done: seq<Command>)
    requires lo <= j < |c|
    ensures done + Walk(c, lo, j + 1) == (done + Walk(c, lo, j)) + Step(Prev(c, j), c[j])
  {
    assert Walk(c, lo, j + 1) == Walk(c, lo, j) + Step(Prev(c, j), c[j]);
  }

  /**
   * The closing segment (lines 254-259), drawn only when the start point differs from the
   * last point as a whole (tag, x, y): a curve controlled by the last point when that point
   * is still pending as a control point, a line otherwise.
   */
  function Closing(c: seq<Point>): (cmds: seq<Command>)
    requires |c| > 0
    ensures |cmds| <= 1
    ensures cmds == [] <==> StartPoint(c) == Last(c)
    ensures cmds != [] ==> !cmds[0].Close? && EndPoint(cmds[0]) == Svg(StartPoint(c))
    ensures cmds != [] ==> (cmds[0].Line? <==> OnCurve(Last(c)))
  {
    var s := StartPoint(c);
    if s == Last(c) then []
    else if OnCurve(Last(c)) then [Line(s.x, -s.y)]
    else [Quad(Last(c).x, -Last(c).y, s.x, -s.y)]
  }

  /** Everything one contour contributes to the path. */
  function ContourCommands(c: seq<Point>): (cmds: seq<Command>)
    requires |c| > 0
    ensures 1 <= |cmds| <= |c| + 2
    ensures cmds[0].Move? && EndPoint(cmds[0]) == Svg(StartPoint(c))
  {
    var s := StartPoint(c);
    [Move(s.x, -s.y)] + Walk(c, FirstStep(c), |c|) + Closing(c)
  }

  /** The commands of all contours, in order, before the final `z`. */
  function Body(cs: seq<seq<Point>>): (cmds: seq<Command>)
    requires forall i :: 0 <= i < |cs| ==> |cs[i]| > 0
    ensures |cmds| >= |cs|
  {
    if cs == [] then [] else Body(cs[..|cs| - 1]) + ContourCommands(cs[|cs| - 1])
  }

  /** The commands of the first i + 1 contours: those of the first i, then contour i's. */
  lemma BodyStep(cs: seq<seq<Point>>, i: nat)
    requires i < |cs| && forall k :: 0 <= k < |cs| ==> |cs[k]| > 0
    ensures Body(cs[..i + 1]) == Body(cs[..i]) + ContourCommands(cs[i])
  {
    assert cs[..i + 1][..i] == cs[..i];
  }

  /** The whole `path` array: every contour's commands, then one `z`. */
  function PathCommands(cs: seq<seq<Point>>): (cmds: seq<Command>)
    requires forall i :: 0 <= i < |cs| ==> |cs[i]| > 0
    ensures |cmds| > |cs| && cmds[|cmds| - 1] == Close
  {
    Body(cs) + [Close]
  }

  /** The number of M commands. */
  function CountMoves(cmds: seq<Command>): nat {
    if cmds == [] then 0 else (if cmds[0].Move? then 1 else 0) + CountMoves(cmds[1..])
  }

  // ---------------------------------------------------------------------------------------
  // The imperative code

  /**
   * Lines 213-227: picks `first_pt`, the initial `curve_pt` and the index `start` at which
   * the walk begins. When the first point is a control point, `curve_pt` is set to the
   * already reassigned `first_pt`, as the source does.
   */
  method ChooseStart(contour: seq<Point>) returns (firstPt: Point, curvePt: Option<Point>, start: nat)
    requires |contour| > 0
    ensures firstPt == StartPoint(contour) && start == FirstStep(contour)
    ensures curvePt == if OnCurve(contour[0]) then None else Some(firstPt)
  {
    firstPt := contour[0];
    var lastPt := contour[|contour| - 1];
    curvePt := None;
    start := 0;
    if OnCurve(firstPt) {
      curvePt := None;
      start := 1;
    } else {
      if OnCurve(lastPt) {
        firstPt := lastPt;
      } else {
        firstPt := Point(0, (firstPt.x + lastPt.x) / 2, (firstPt.y + lastPt.y) / 2);
      }
      curvePt := Some(firstPt);
    }
  }

  /**
   * Lines 239-251, one step of the walk from `prevPt` to `pt`. The caller guarantees that a
   * pending control point is the previous point whenever that point is off the curve, and
   * that nothing is pending between two on-curve points; then the emitted commands are the
   * step's, the new `curve_pt` is `pt` exactly when `pt` is a control point, and the
   * `raise` branch is unreachable.
   */
  method WalkPoint(prevPt: Point, pt: Point, curvePt: Option<Point>) returns (emitted: seq<Command>, nextCurvePt: Option<Point>)
    requires !OnCurve(prevPt) ==> curvePt == Some(prevPt)
    requires OnCurve(prevPt) && OnCurve(pt) ==> curvePt == None
    ensures emitted == Step(prevPt, pt)
    ensures nextCurvePt == Pending(pt)
  {
    emitted := [];
    nextCurvePt := curvePt;
    if OnCurve(prevPt) && OnCurve(pt) {
      emitted := [Line(pt.x, -pt.y)];
    } else if OnCurve(prevPt) && !OnCurve(pt) {
      nextCurvePt := Some(pt);
    } else if !OnCurve(prevPt) && !OnCurve(pt) {
      emitted := [Quad(prevPt.x, -prevPt.y, (prevPt.x + pt.x) / 2, -((prevPt.y + pt.y) / 2))];
      nextCurvePt := Some(pt);
    } else if !OnCurve(prevPt) && OnCurve(pt) {
      emitted := [Quad(curvePt.value.x, -curvePt.value.y, pt.x, -pt.y)];
      nextCurvePt := None;
    } else {
      assert false;
    }
  }

  /**
   * Lines 254-259: once the walk is over, `curve_pt` holds the last point exactly when that
   * point is a control point; the closing segment back to the start is then the one
   * `Closing` describes.
   */
  method CloseContour(contour: seq<Point>, firstPt: Point, curvePt: Option<Point>) returns (closing: seq<Command>)
    requires |contour| > 0
    requires firstPt == StartPoint(contour) && curvePt == Pending(Last(contour))
    ensures closing == Closing(contour)
  {
    var lastPt := contour[|contour| - 1];
    closing := [];
    if firstPt != lastPt {
      if curvePt.Some? {
        closing := [Quad(curvePt.value.x, -curvePt.value.y, firstPt.x, -firstPt.y)];
      } else {
        closing := [Line(firstPt.x, -firstPt.y)];
      }
    }
  }

  /**
   * Lines 230-252, the walk over one contour from index `start` on, appending to `cmds`.
   * `curvePt` is Ruby's `curve_pt`; the loop invariant says that after index j it holds
   * point j exactly when that point is a control point, which is what each walk step and,
   * afterwards, the closing segment need.
   */
  method WalkContour(contour: seq<Point>, firstPt: Point, curvePt: Option<Point>, start: nat, cmds: seq<Command>)
    returns (cmds': seq<Command>, curvePt': Option<Point>)
    requires |contour| > 0 && firstPt == StartPoint(contour) && start == FirstStep(contour)
    requires curvePt == if OnCurve(contour[0]) then None else Some(firstPt)
    ensures cmds' == cmds + Walk(contour, start, |contour|)
    ensures curvePt' == Pending(Last(contour))
  {
    cmds', curvePt' := cmds, curvePt;
    var j := start;
    while j < |contour|
      invariant start <= j <= |contour|
      invariant cmds' == cmds + Walk(contour, start, j)
      invariant curvePt' == if j == 0 then Some(firstPt) else Pending(contour[j - 1])
    {
      var pt := contour[j];
      var prevPt := if j == 0 then firstPt else contour[j - 1];
      var emitted;
      emitted, curvePt' := WalkPoint(prevPt, pt, curvePt');
      WalkStep(contour, start, j, cmds);
      cmds' := cmds' + emitted;
      j := j + 1;
    }
  }

  /** Lines 213-259 for one contour: the start point, the walk and the closing segment. */
  method EmitContour(contour: seq<Point>) returns (cmds: seq<Command>)
    requires |contour| > 0
    ensures cmds == ContourCommands(contour)
  {
    var firstPt, curvePt, start := ChooseStart(contour);
    cmds := [Move(firstPt.x, -firstPt.y)];
    cmds, curvePt := WalkContour(contour, firstPt, curvePt, start, cmds);
    var closing := CloseContour(contour, firstPt, curvePt);
    cmds := cmds + closing;
  }

  /** Lines 211-261: every contour's commands appended to `path` in turn, then `z`. */
  method BuildPath(contours: seq<seq<Point>>) returns (path: seq<Command>)
    requires forall i :: 0 <= i < |contours| ==> |contours[i]| > 0
    ensures path == PathCommands(contours)
  {
    path := [];
    var i := 0;
    while i < |contours|
      invariant 0 <= i <= |contours|
      invariant path == Body(contours[..i])
    {
      var cmds := EmitContour(contours[i]);
      BodyStep(contours, i);
      path := path + cmds;
      i := i + 1;
    }
    assert contours[..|contours|] == contours;
    path := path + [Close];
  }
}
