/**
 * What the path reconstruction of `Outline#to_svg_path` guarantees, stated on the
 * specification functions of PathBuilder (which EmitContour and BuildPath are proved to compute).
 */
module PathProperties {
  import opened Points
  import opened PathBuilder

  // ---------------------------------------------------------------------------------------
  // One contour

  /**
   * Each contour opens with exactly one M, at the start point (y negated): the first point
   * if it is on the curve, else the last point if that one is, else the rounded-down midpoint
   * of the two. Every later command of the contour is an L or a Q.
   */
  lemma ContourOpensWithMove(c: seq<Point>)
    requires |c| > 0
    ensures var cmds := ContourCommands(c);
            cmds[0].Move? &&
            (forall k :: 0 < k < |cmds| ==> cmds[k].Line? || cmds[k].Quad?) &&
            (OnCurve(c[0]) ==> cmds[0] == Move(c[0].x, -c[0].y)) &&
            (!OnCurve(c[0]) && OnCurve(Last(c)) ==> cmds[0] == Move(Last(c).x, -Last(c).y)) &&
            (!OnCurve(c[0]) && !OnCurve(Last(c)) ==>
               cmds[0] == Move((c[0].x + Last(c).x) / 2, -((c[0].y + Last(c).y) / 2)))
  {
    var cmds := ContourCommands(c);
    var tail := Walk(c, FirstStep(c), |c|) + Closing(c);
    assert cmds == [cmds[0]] + tail;
    forall k | 0 < k < |cmds|
      ensures cmds[k].Line? || cmds[k].Quad?
    {
      assert cmds[k] == tail[k - 1];
    }
  }

  /**
   * The closing segment: when the start point differs from the last point (compared as
   * whole points, tag included) the contour ends with a line back to the start if the last
   * point is on the curve, or with a curve controlled by the last point otherwise; when they
   * are equal nothing is added after the walk.
   */
  lemma ClosingSegment(c: seq<Point>)
    requires |c| > 0
    ensures var cmds := ContourCommands(c);
            var s := StartPoint(c);
            var last := Last(c);
            var walked := 1 + |Walk(c, FirstStep(c), |c|)|;
            (s == last ==> |cmds| == walked) &&
            (s != last ==> |cmds| == walked + 1) &&
            (s != last && OnCurve(last) ==> cmds[|cmds| - 1] == Line(s.x, -s.y)) &&
            (s != last && !OnCurve(last) ==> cmds[|cmds| - 1] == Quad(last.x, -last.y, s.x, -s.y))
  {
  }

  /**
   * The degenerate contours: a lone on-curve point gives only its M. A lone control point
   * gives a start point with its own coordinates and tag 0, hence a curve to itself, and a
   * closing curve as well when its own tag is not 0 (the equality test includes the tag).
   */
  lemma {:induction false} SinglePointContour(p: Point)
    ensures OnCurve(p) ==> ContourCommands([p]) == [Move(p.x, -p.y)]
    ensures !OnCurve(p) && p.tag == 0 ==>
              ContourCommands([p]) == [Move(p.x, -p.y), Quad(p.x, -p.y, p.x, -p.y)]
    ensures !OnCurve(p) && p.tag != 0 ==>
              ContourCommands([p]) == [Move(p.x, -p.y), Quad(p.x, -p.y, p.x, -p.y), Quad(p.x, -p.y, p.x, -p.y)]
  {
    var c := [p];
    if !OnCurve(p) {
      var s := StartPoint(c);
      assert s == Point(0, p.x, p.y);
      TagZeroIsOffCurve(p.x, p.y);
      assert Walk(c, 0, 1) == Step(s, p);
      assert Walk(c, 0, 1) == [Quad(p.x, -p.y, p.x, -p.y)];
    }
  }

  /** L commands to each of `ps`, y negated. */
  function LinesThrough(ps: seq<Point>): (cmds: seq<Command>)
    ensures |cmds| == |ps|
  {
    seq(|ps|, i requires 0 <= i < |ps| => Line(ps[i].x, -ps[i].y))
  }

  lemma {:induction false} WalkOnCurve(c: seq<Point>, hi: nat)
    requires 1 <= hi <= |c|
    requires forall i :: 0 <= i < |c| ==> OnCurve(c[i])
    ensures Walk(c, 1, hi) == LinesThrough(c[1..hi])
    decreases hi
  {
    if hi > 1 {
      WalkOnCurve(c, hi - 1);
      assert Step(Prev(c, hi - 1), c[hi - 1]) == [Line(c[hi - 1].x, -c[hi - 1].y)];
      assert LinesThrough(c[1..hi]) == LinesThrough(c[1..hi - 1]) + [Line(c[hi - 1].x, -c[hi - 1].y)];
    }
  }

  /**
   * A contour of on-curve points p0..pn-1 is the polygon M p0, L p1, ..., L pn-1, closed by
   * L p0 unless p0 and pn-1 are the same point; every y is negated.
   */
  lemma AllOnCurveContour(c: seq<Point>)
    requires |c| > 0
    requires forall i :: 0 <= i < |c| ==> OnCurve(c[i])
    ensures ContourCommands(c) ==
              [Move(c[0].x, -c[0].y)] + LinesThrough(c[1..]) +
              (if c[0] != Last(c) then [Line(c[0].x, -c[0].y)] else [])
  {
    WalkOnCurve(c, |c|);
  }

  /**
   * The pen comes back to where the contour started: the last command of the contour ends
   * at the start point, except when the start point was synthesised and equals the last
   * (control) point, in which case no closing curve is drawn (see OpenContourExample).
   */
  lemma ContourReturnsToStart(c: seq<Point>)
    requires |c| > 0
    requires !(StartPoint(c) == Last(c) && !OnCurve(Last(c)))
    ensures var cmds := ContourCommands(c);
            EndPoint(cmds[|cmds| - 1]) == Svg(StartPoint(c))
  {
    var s := StartPoint(c);
    var n := |c|;
    var walk := Walk(c, FirstStep(c), n);
    var cmds := ContourCommands(c);
    if s == c[n - 1] {
      assert cmds == [Move(s.x, -s.y)] + walk;
      if n - 1 >= FirstStep(c) {
        var step := Step(Prev(c, n - 1), c[n - 1]);
        assert walk == Walk(c, FirstStep(c), n - 1) + step;
        assert cmds[|cmds| - 1] == step[0];
      }
    }
  }

  /**
   * A curve controlled by p that ends halfway (rounded down) between p and q, y negated:
   * the command `Step` emits between two control points p and q.
   */
  function MidCurve(p: Point, q: Point): Command {
    Quad(p.x, -p.y, (p.x + q.x) / 2, -((p.y + q.y) / 2))
  }

  /** The curves controlled by each point but the last, each ending halfway to the next point. */
  function MidCurves(ps: seq<Point>): (cmds: seq<Command>)
    requires |ps| > 0
    ensures |cmds| == |ps| - 1
  {
    seq(|ps| - 1, i requires 0 <= i < |ps| - 1 => MidCurve(ps[i], ps[i + 1]))
  }

  lemma {:induction false} WalkOffCurve(c: seq<Point>, hi: nat)
    requires 1 <= hi <= |c|
    requires forall i :: 0 <= i < |c| ==> !OnCurve(c[i])
    ensures Walk(c, 0, hi) == [MidCurve(StartPoint(c), c[0])] + MidCurves(c[..hi])
    decreases hi
  {
    var s := StartPoint(c);
    TagZeroIsOffCurve(s.x, s.y);
    if hi == 1 {
      assert Walk(c, 0, 1) == Step(s, c[0]);
      assert MidCurves(c[..1]) == [];
    } else {
      WalkOffCurve(c, hi - 1);
      var head := [MidCurve(s, c[0])];
      var last := MidCurve(c[hi - 2], c[hi - 1]);
      assert Walk(c, 0, hi) == Walk(c, 0, hi - 1) + [last];
      assert MidCurves(c[..hi]) == MidCurves(c[..hi - 1]) + [last];
      assert head + (MidCurves(c[..hi - 1]) + [last]) == (head + MidCurves(c[..hi - 1])) + [last];
    }
  }

  /**
   * A contour made only of control points p0..pn-1 starts at the synthesised point S halfway
   * between p0 and pn-1 and consists of M S; a curve controlled by S (itself a control point,
   * its tag being 0) to the midpoint of S and p0; a curve controlled by each pi to the midpoint
   * of pi and pi+1; and, unless S equals pn-1, a closing curve controlled by pn-1 back to S.
   */
  lemma AllOffCurveContour(c: seq<Point>)
    requires |c| > 0
    requires forall i :: 0 <= i < |c| ==> !OnCurve(c[i])
    ensures var s := StartPoint(c);
            var last := Last(c);
            s == Point(0, (c[0].x + last.x) / 2, (c[0].y + last.y) / 2) &&
            ContourCommands(c) ==
              [Move(s.x, -s.y), MidCurve(s, c[0])] + MidCurves(c) +
              (if s != last then [Quad(last.x, -last.y, s.x, -s.y)] else [])
  {
    WalkOffCurve(c, |c|);
    assert c[..|c|] == c;
  }

  /**
   * The exception in ContourReturnsToStart: when the synthesised start equals the last control
   * point, the contour is left open and the pen stops halfway between the last two points.
   */
  lemma OpenContour(c: seq<Point>)
    requires |c| >= 2
    requires forall i :: 0 <= i < |c| ==> !OnCurve(c[i])
    requires StartPoint(c) == Last(c)
    ensures var cmds := ContourCommands(c);
            cmds[|cmds| - 1] == MidCurve(c[|c| - 2], Last(c))
  {
    AllOffCurveContour(c);
  }

  /**
   * Such contours exist: for the control points (x,0), (x+10,0), (x,0), all with tag 0, the
   * start is (x,0), the last point itself, and the pen ends at (x+5,0) instead of at the start.
   */
  lemma OpenContourExample(x: int)
    ensures var c := [Point(0, x, 0), Point(0, x + 10, 0), Point(0, x, 0)];
            var cmds := ContourCommands(c);
            |cmds| > 0 && StartPoint(c) == c[2] &&
            EndPoint(cmds[|cmds| - 1]) == (x + 5, 0) != Svg(StartPoint(c))
  {
    var c := [Point(0, x, 0), Point(0, x + 10, 0), Point(0, x, 0)];
    assert StartPoint(c) == c[2];
    OpenContour(c);
  }

  // ---------------------------------------------------------------------------------------
  // The whole path

  lemma {:induction false} CountMovesAppend(a: seq<Command>, b: seq<Command>)
    ensures CountMoves(a + b) == CountMoves(a) + CountMoves(b)
    decreases |a|
  {
    if a != [] {
      assert (a + b)[0] == a[0];
      assert (a + b)[1..] == a[1..] + b;
      CountMovesAppend(a[1..], b);
    } else {
      assert a + b == b;
    }
  }

  lemma ContourHasOneMove(c: seq<Point>)
    requires |c| > 0
    ensures CountMoves(ContourCommands(c)) == 1
  {
    var cmds := ContourCommands(c);
    ContourOpensWithMove(c);
    NoMoves(cmds[1..]);
    assert cmds == [cmds[0]] + cmds[1..];
    CountMovesAppend([cmds[0]], cmds[1..]);
  }

  lemma {:induction false} NoMoves(cmds: seq<Command>)
    requires forall k :: 0 <= k < |cmds| ==> !cmds[k].Move?
    ensures CountMoves(cmds) == 0
    decreases |cmds|
  {
    if cmds != [] {
      NoMoves(cmds[1..]);
    }
  }

  /**
   * The path holds one M per contour, the first command is the first contour's M, and
   * the commands before the final `z` contain no `z`.
   */
  lemma {:induction false} BodyShape(cs: seq<seq<Point>>)
    requires forall i :: 0 <= i < |cs| ==> |cs[i]| > 0
    ensures CountMoves(Body(cs)) == |cs|
    ensures forall k :: 0 <= k < |Body(cs)| ==> !Body(cs)[k].Close?
    ensures cs != [] ==> Body(cs)[0] == ContourCommands(cs[0])[0]
    decreases |cs|
  {
    if cs != [] {
      var init := cs[..|cs| - 1];
      var c := cs[|cs| - 1];
      BodyShape(init);
      ContourOpensWithMove(c);
      ContourHasOneMove(c);
      CountMovesAppend(Body(init), ContourCommands(c));
      if init != [] {
        assert init[0] == cs[0];
      }
    }
  }

  /**
   * The path ends with exactly one `z`, which appears nowhere else; it has exactly one M per
   * contour; an outline without contours gives just `z`.
   */
  lemma PathShape(cs: seq<seq<Point>>)
    requires forall i :: 0 <= i < |cs| ==> |cs[i]| > 0
    ensures var p := PathCommands(cs);
            p[|p| - 1] == Close &&
            (forall k :: 0 <= k < |p| - 1 ==> !p[k].Close?) &&
            CountMoves(p) == |cs| &&
            (cs == [] ==> p == [Close]) &&
            (cs != [] ==> p[0] == ContourCommands(cs[0])[0])
  {
    var p := PathCommands(cs);
    BodyShape(cs);
    CountMovesAppend(Body(cs), [Close]);
    assert CountMoves([Close]) == 0;
  }
}
