/**
 * `Outline#to_svg_path` (lib/freetype/api.rb:198-266) as a whole: the outline's points are
 * cut into contours, each contour becomes path commands, and the commands become SVG path
 * text.
 */
module Outline {
  import opened Points
  import opened Segmentation
  import opened PathBuilder
  import opened SvgSyntax
  import PathProperties

  /** The `path` array built for an outline with these points and contour ends. */
  function OutlineCommands(points: seq<Point>, ends: seq<int>): seq<Command> {
    PathCommands(Contours(points, ends, 0))
  }

  /** The string `to_svg_path` returns. */
  function SvgPath(points: seq<Point>, ends: seq<int>): (d: string)
    ensures |d| > |Contours(points, ends, 0)|
  {
    Serialize(OutlineCommands(points, ends))
  }

  /**
   * `to_svg_path`, given the outline's coordinates, tags and contour ends: the points are
   * zipped from the first two (`Outline#points`), split at the ends, turned into commands
   * and written out.
   */
  method ToSvgPath(coords: seq<(int, int)>, tags: seq<Int8>, ends: seq<int>) returns (d: string)
    requires |coords| == |tags|
    ensures d == SvgPath(MakePoints(coords, tags), ends)
  {
    var points := MakePoints(coords, tags);
    var contours := SplitContours(points, ends);
    var path := BuildPath(contours);
    d := Serialize(path);
  }

  lemma {:induction false} MovesAreLetterM(cmds: seq<Command>)
    ensures CountLetter(cmds, 'M') == CountMoves(cmds)
    decreases |cmds|
  {
    if cmds != [] {
      MovesAreLetterM(cmds[1..]);
    }
  }

  lemma {:induction false} NoCloseLetter(cmds: seq<Command>)
    requires forall k :: 0 <= k < |cmds| ==> !cmds[k].Close?
    ensures CountLetter(cmds, 'z') == 0
    decreases |cmds|
  {
    if cmds != [] {
      NoCloseLetter(cmds[1..]);
    }
  }

  /** The `z` token written last. */
  lemma CloseText()
    ensures Serialize([Close]) == "z"
  {
    assert IntStrings([]) == [];
  }

  /** The text is the contours' text followed by the `z` token. */
  lemma SvgPathText(points: seq<Point>, ends: seq<int>)
    ensures SvgPath(points, ends) == Serialize(Body(Contours(points, ends, 0))) + "z"
  {
    var body := Body(Contours(points, ends, 0));
    SerializeAppend(body, [Close]);
    CloseText();
  }

  /** The text ends with `z`, which occurs nowhere else. */
  lemma SvgPathEndsWithClose(points: seq<Point>, ends: seq<int>)
    ensures var d := SvgPath(points, ends);
            |d| > 0 && d[|d| - 1] == 'z' && Occurrences(d, 'z') == 1
  {
    var cs := Contours(points, ends, 0);
    var body := Body(cs);
    SvgPathText(points, ends);
    PathProperties.BodyShape(cs);
    NoCloseLetter(body);
    CountLetterAppend(body, [Close], 'z');
    LetterCount(body + [Close], 'z');
  }

  /** The text holds one `M` per contour found, whatever the contour ends are. */
  lemma SvgPathMoves(points: seq<Point>, ends: seq<int>)
    ensures Occurrences(SvgPath(points, ends), 'M') == |Contours(points, ends, 0)|
  {
    var cs := Contours(points, ends, 0);
    PathProperties.PathShape(cs);
    LetterCount(PathCommands(cs), 'M');
    MovesAreLetterM(PathCommands(cs));
  }

  /** For a well-formed outline there is one `M` per contour end. */
  lemma WellFormedSvgPath(points: seq<Point>, ends: seq<int>)
    requires WellFormedEnds(ends, |points|)
    ensures Occurrences(SvgPath(points, ends), 'M') == |ends|
  {
    SvgPathMoves(points, ends);
    ContoursPartition(points, ends);
  }

  /** An outline without points or without contour ends gives the path "z". */
  lemma EmptyOutline(points: seq<Point>, ends: seq<int>)
    requires points == [] || ends == []
    ensures SvgPath(points, ends) == "z"
  {
    assert Contours(points, ends, 0) == [];
    assert OutlineCommands(points, ends) == [Close];
    CloseText();
  }
}
