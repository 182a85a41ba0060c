# free_type: `Outline#to_svg_path` in Dafny

This project models how the `free_type` Ruby gem turns a glyph outline into SVG path data
(`FreeType::API::Outline#to_svg_path` in `lib/freetype/api.rb`), and proves properties of
that model. An outline is a flat list of points plus a list of contour-end indices. Each
point has integer coordinates and a tag byte whose bit 0 says whether it lies on the curve.

The method works in three stages:

1. **Segmentation.** One loop cuts the point list into contours. A contour closes at the
   point whose index equals the head of the end queue, and the queue is then shifted.
   - Module `Segmentation`.
   - Spec function: `Contours`.
   - Loop: `SplitContours`, with its body in `TakePoint`.
2. **Path construction.** A second loop turns every contour into path commands:
   - `M` to a start point: the first point, or the last point, or a synthesised midpoint;
   - `L` between two on-curve points;
   - `Q` for quadratic curves, with the implied on-curve midpoint between two control
     points filled in;
   - a closing segment back to the start, when the start point differs from the last point;
   - one `z` after all contours.

   Every y coordinate is negated. The details:
   - Module `PathBuilder`.
   - Spec functions: `StartPoint`, `Step`, `Walk`, `Closing`, `ContourCommands`,
     `PathCommands`.
   - Imperative code: `ChooseStart`, `WalkPoint`, `WalkContour`, `CloseContour`,
     `EmitContour`, `BuildPath`, each proved to compute its spec function.
   - Module `PathProperties` states what these commands look like.
3. **Serialisation.** Each command becomes its letter followed by its integer arguments,
   in decimal and separated by single spaces. The tokens are concatenated with nothing
   between them.
   - Module `SvgSyntax`, with `Serialize`.
   - A reference reader, `ParsePath`, is proved to invert `Serialize`. So the text loses
     nothing, and different paths never give the same text.

Module `Points` holds the point type, the `on_curve?` test and the zip that builds points
from coordinates and tags. Module `Outline` holds `ToSvgPath`, which is the whole method,
and the lemmas about the finished text.

Behaviours of the code that the model keeps and the lemmas make explicit:

- **The segmentation never rejects contour ends.** An end that never equals the running
  index stops all later contours, and their points are dropped. `UnsortedEndsDropPoints`
  exhibits this. `ExactSegmentationNeedsWellFormedEnds` shows that only well-formed ends
  both keep every point and close a contour at every end.
- **A synthesised start point has tag 0, so it counts as a control point.** It is
  synthesised for a contour whose first and last points are both control points. Such a
  contour opens with a curve controlled by its own start point, ending at the midpoint of
  that start and the first point. When only the first point is a control point, the last
  point is the start, and the first step draws nothing.
- **The closing test compares whole points, tag included.** A lone control point with a
  non-zero tag differs from its tag-0 start point, so it gets a second, closing curve
  (`SinglePointContour`). A last point with the start's coordinates but another tag gets a
  zero-length closing segment.
- **A contour can be left open.** Take a contour of at least two points, all of them
  control points, whose synthesised start equals its last point. No closing segment is
  drawn, and the last curve ends halfway (rounded down) between the last two points, which
  may differ from the start. `OpenContour` and `OpenContourExample` show this.
- **The `raise` at line 250 is unreachable.** `WalkPoint` proves it.

## Model

| member | source | states |
|---|---|---|
| `Points.OnCurve` | lib/freetype/api.rb:270-272 | `on_curve?`, stated as the parity of the tag: a tag of 0 is never on the curve. |
| `Points.OnCurveIsLowBit` | lib/freetype/api.rb:269-273 | A point is on the curve exactly when bit 0 of its tag's two's-complement byte is set; no other tag bit matters. |
| `Points.TagByteValue` | lib/freetype/api.rb:194-196 | A tag read as a signed char is stored as its byte value: negative tags are stored as themselves plus 256. |
| `Points.TagZeroIsOffCurve` | lib/freetype/api.rb:224 | The start point synthesised with tag 0 is never on the curve. |
| `Points.MakePoints` | lib/freetype/api.rb:179-188 | Point i carries coordinate pair i and tag i, and there are as many points as coordinates. |
| `Segmentation.Contours` | lib/freetype/api.rb:199-209 | There are never more contours than contour ends, and no contour is empty. |
| `Segmentation.TakePoint` | lib/freetype/api.rb:202-208 | One iteration appends the point to the open contour. If the index is the head of the end queue, it shifts the queue, appends the contour to the closed ones and opens an empty contour. Otherwise the queue and the closed contours are unchanged. In both cases the contours still to come, counted together with the closed ones, do not change. |
| `Segmentation.SplitContours` | lib/freetype/api.rb:199-209 | The loop returns exactly the contours that `Contours` describes, for any contour ends. |
| `Segmentation.ContoursArePrefix` | lib/freetype/api.rb:202-209 | Whatever the ends, the contours laid end to end are a prefix of the points, in order: nothing is reordered or repeated, only a tail may be dropped. |
| `Segmentation.PartitionFrom` | lib/freetype/api.rb:199-209 | For an increasing end queue ending at the last point, there is one contour per end, and together the contours are all remaining points. |
| `Segmentation.ContourAt` | lib/freetype/api.rb:203-207 | For well-formed ends, contour i runs from one past end i-1 through end i. |
| `Segmentation.ContoursPartition` | lib/freetype/api.rb:199-209 | For well-formed ends, the contours partition the points in order: one contour per end, and contour i runs from one past `ends[i-1]` (from 0 when i is 0) through `ends[i]`. |
| `Segmentation.ExactSegmentationNeedsWellFormedEnds` | lib/freetype/api.rb:204-206 | Conversely, if every end produced a contour and every point was placed, the ends were well formed. |
| `Segmentation.UnsortedEndsDropPoints` | lib/freetype/api.rb:204-206 | Nothing is raised for the out-of-order ends [5, 3] over ten points: the first contour (points 0..5) is kept and the other four points are dropped. |
| `PathBuilder.Step` | lib/freetype/api.rb:239-251 | A walk step emits at most one command, an L or a Q. It emits nothing exactly when it goes from an on-curve point to a control point. Between two on-curve points it is an L to the second. A step onto an on-curve point ends there. A step from a control point is a Q controlled by it. Between two control points the step ends at their rounded-down midpoint. |
| `PathBuilder.StartPoint` | lib/freetype/api.rb:213-227 | The start point is the first point, the last point or a tag-0 point. It is on the curve exactly when the first or the last point is. |
| `PathBuilder.Walk` | lib/freetype/api.rb:230-252 | The walk over indices lo..hi-1 emits at most one command per index, each an L or a Q. |
| `PathBuilder.Closing` | lib/freetype/api.rb:254-259 | At most one closing command. There is one exactly when the start point differs from the last point. It ends at the start, and it is an L exactly when the last point is on the curve. |
| `PathBuilder.ContourCommands` | lib/freetype/api.rb:212-260 | A contour gives between 1 and (point count + 2) commands, the first an M at the start point with y negated. |
| `PathBuilder.Body` | lib/freetype/api.rb:212-260 | The contours give at least one command each. |
| `PathBuilder.PathCommands` | lib/freetype/api.rb:211-261 | The path has more commands than there are contours, and its last command is `z`. |
| `PathBuilder.ChooseStart` | lib/freetype/api.rb:213-227 | The method returns the start point `StartPoint`: the first point if on the curve, else the last if on the curve, else their tag-0 midpoint. It also returns the walk's first index (1 or 0) and the initial `curve_pt`. |
| `PathBuilder.WalkPoint` | lib/freetype/api.rb:239-251 | When `curve_pt` is the previous point whenever that point is a control point, the branch taken emits `Step`'s commands and leaves `curve_pt` set exactly when the current point is a control point. The `raise` branch is unreachable. |
| `PathBuilder.WalkContour` | lib/freetype/api.rb:230-252 | The loop appends exactly `Walk`'s commands and leaves `curve_pt` holding the last point exactly when that point is a control point. |
| `PathBuilder.CloseContour` | lib/freetype/api.rb:254-259 | With that `curve_pt`, the closing segment drawn is exactly `Closing`. |
| `PathBuilder.EmitContour` | lib/freetype/api.rb:212-260 | One contour contributes `ContourCommands`: its M, its walk and its closing segment. |
| `PathBuilder.BuildPath` | lib/freetype/api.rb:211-261 | The `path` array is every contour's commands in order, then one `z` (`PathCommands`). |
| `PathProperties.ContourOpensWithMove` | lib/freetype/api.rb:213-228 | A contour's commands open with one M at the chosen start point, with y negated, for each of the three ways of choosing it. Every later command is an L or a Q. |
| `PathProperties.ClosingSegment` | lib/freetype/api.rb:254-259 | A closing segment is added exactly when the start point differs from the last point. It is an L to the start if the last point is on the curve, else a Q controlled by the last point. |
| `PathProperties.SinglePointContour` | lib/freetype/api.rb:213-259 | A lone on-curve point gives only its M. A lone control point gives M, a degenerate Q to itself and, when its tag is not 0, a second, closing Q. |
| `PathProperties.WalkOnCurve` | lib/freetype/api.rb:239-240 | Over on-curve points, the walk is one L to each point after the first. |
| `PathProperties.AllOnCurveContour` | lib/freetype/api.rb:212-259 | A contour of on-curve points is the polygon M p0, L p1 … L pn-1, closed by L p0 unless p0 equals pn-1. |
| `PathProperties.ContourReturnsToStart` | lib/freetype/api.rb:239-259 | The contour's last command ends at its start point, except when the start was synthesised and equals the last control point. |
| `PathProperties.WalkOffCurve` | lib/freetype/api.rb:243-245 | Over control points, the walk is a Q from the synthesised start to its midpoint with p0, then a Q controlled by each pi ending halfway to pi+1. |
| `PathProperties.AllOffCurveContour` | lib/freetype/api.rb:220-259 | A contour made only of control points: the tag-0 midpoint start, its M, the chain of midpoint curves, and a closing Q unless the start equals the last point. |
| `PathProperties.OpenContour` | lib/freetype/api.rb:254 | In that exceptional case the contour ends with the curve to the rounded-down midpoint of its last two points, which may differ from its start (`OpenContourExample`). |
| `PathProperties.OpenContourExample` | lib/freetype/api.rb:213-259 | For the control points (x,0), (x+10,0), (x,0), the start is the last point and the pen stops at (x+5,0), away from the start. |
| `PathProperties.ContourHasOneMove` | lib/freetype/api.rb:228 | Each contour contributes exactly one M. |
| `PathProperties.BodyShape` | lib/freetype/api.rb:212-260 | Before the final `z` there is one M per contour and no `z`, and the first command is the first contour's M. |
| `PathProperties.PathShape` | lib/freetype/api.rb:211-261 | The path ends with its only `z` and has one M per contour. With no contours it is just `z`; otherwise it opens with the first contour's M. |
| `SvgSyntax.NatToString` | lib/freetype/api.rb:264 | The decimal text of a natural number is non-empty, opens with a digit and has no leading zero. |
| `SvgSyntax.IntToString` | lib/freetype/api.rb:264 | An argument's text is non-empty and opens with a minus sign exactly when the argument is negative. |
| `SvgSyntax.Token` | lib/freetype/api.rb:264 | A command's token is non-empty and opens with the command's letter. |
| `SvgSyntax.Serialize` | lib/freetype/api.rb:263-265 | The text of a path has at least one character per command, and it is empty only for an empty path. |
| `SvgSyntax.ParseIntOfIntToString` | lib/freetype/api.rb:264 | Each argument's decimal text reads back as that argument. |
| `SvgSyntax.FieldsOfJoin` | lib/freetype/api.rb:264 | Splitting a single-space join of space-free fields gives the fields back. |
| `SvgSyntax.ParseArgsOfJoinArgs` | lib/freetype/api.rb:264 | A command's argument text reads back as its arguments, with the right count. |
| `SvgSyntax.ParseTokenOfToken` | lib/freetype/api.rb:263-265 | A token followed by the end of the text, or by another letter, reads back as its command and takes exactly the token's length. |
| `SvgSyntax.SerializeAppend` | lib/freetype/api.rb:263-265 | The text of two command lists one after the other is their texts concatenated. |
| `SvgSyntax.ParseSerialize` | lib/freetype/api.rb:263-265 | Reading back the text of any command list gives that list: `ParsePath(Serialize(cmds)) == Some(cmds)`. |
| `SvgSyntax.SerializeInjective` | lib/freetype/api.rb:263-265 | Two command lists with the same text are equal. |
| `SvgSyntax.TokenLetters` | lib/freetype/api.rb:264 | A command letter occurs in a token only as its first character. |
| `SvgSyntax.LetterCount` | lib/freetype/api.rb:263-265 | In the text, each command letter occurs once for every command that has that letter, and nowhere else. |
| `Outline.ToSvgPath` | lib/freetype/api.rb:198-266 | The method returns the text of the path built from the contours that segmentation cuts from the zipped points. |
| `Outline.SvgPath` | lib/freetype/api.rb:198-266 | The string `to_svg_path` returns is longer than the number of contours found. |
| `Outline.MovesAreLetterM` | lib/freetype/api.rb:228 | The number of commands written with letter M is the number of move commands. |
| `Outline.SvgPathEndsWithClose` | lib/freetype/api.rb:261-265 | The text is non-empty, ends with `z`, and has no other `z`. |
| `Outline.SvgPathMoves` | lib/freetype/api.rb:211-265 | The text holds one `M` per contour found, whatever the contour ends. |
| `Outline.WellFormedSvgPath` | lib/freetype/api.rb:198-266 | For well-formed contour ends, the text holds one `M` per contour end. |
| `Outline.EmptyOutline` | lib/freetype/api.rb:198-266 | An outline with no points or no contour ends gives the text `z`. |

## Left out

- The FFI bindings are not part of this model. Neither are the library, face and glyph
  wrappers, kerning, the `Vector` and `BBox` structs, or the other files of the gem. They
  open fonts and load glyphs through the C library and contain no outline logic.
- Reading the outline from C memory (`n_points`, the `FT_Vector` array, `tags` and
  `contours`) is foreign memory access. The model takes the coordinate pairs, the tags and
  the contour ends as parameters. Tags are signed 8-bit values, as `get_array_of_char`
  returns them.
- Contour ends are read as signed 16-bit values (`get_array_of_short`). The model lets
  them be any integer. Every 16-bit value is covered, and an end outside the point range
  behaves as the code makes it: it never matches.
- The memoisation of `points` (`@points ||=`) is not modelled. It caches a value that does
  not change, so the result is the same.
- Ruby integers are unbounded, like Dafny's `int`, so coordinate sums cannot overflow.
  Ruby's `/` by 2 rounds down, as Dafny's `/` does for a positive divisor.
- `ParsePath` and its helpers are not code of the gem. They are a reference reader for the
  text `to_svg_path` produces, written here to show that the serialisation is invertible.
