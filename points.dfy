/** Outline points: the `Point` struct of lib/freetype/api.rb and its `on_curve?` test. */
module Points {

  /** A FreeType tag as read by `get_array_of_char`: a signed 8-bit value. */
  type Int8 = t: int | -128 <= t < 128

  /** One outline point: its tag byte and its integer (FT_Pos) coordinates. */
  datatype Point = Point(tag: Int8, x: int, y: int)

  /** The byte that holds `t` in two's complement, as FreeType stores it. */
  function TagByte(t: Int8): bv8 {
    ((t + 256) % 256) as bv8
  }

  /**
   * `on_curve?`: bit 0 of the tag is set. Stated on the integer tag (its parity, with
   * Euclidean `%`); OnCurveIsLowBit shows it is the bit test on the stored byte.
   */
  predicate OnCurve(p: Point)
    ensures OnCurve(p) ==> p.tag != 0
  {
    p.tag % 2 != 0
  }

  /** The low bit of a byte is its parity. */
  lemma LowBitIsParity(b: bv8)
    ensures (b & 1 != 0) <==> (b as int) % 2 == 1
  {
  }

  /** A negative tag is stored as itself plus 256. */
  lemma TagByteValue(t: Int8)
    ensures TagByte(t) as int == if t < 0 then t + 256 else t
  {
    assert (t + 256) % 256 == if t < 0 then t + 256 else t;
  }

  /**
   * `tag & 0x01 != 0` on the two's complement byte holds exactly when the point is on the
   * curve; no other tag bit (such as FreeType's cubic bit) takes part.
   */
  lemma OnCurveIsLowBit(p: Point)
    ensures OnCurve(p) <==> TagByte(p.tag) & 1 != 0
  {
    var b := TagByte(p.tag);
    TagByteValue(p.tag);
    LowBitIsParity(b);
    assert (b as int) % 2 == p.tag % 2;
  }

  /** The point that the path builder synthesises with tag 0 is always off the curve. */
  lemma TagZeroIsOffCurve(x: int, y: int)
    ensures !OnCurve(Point(0, x, y))
  {
  }

  /**
   * `Outline#points`: pairs the i-th coordinate with the i-th tag. Both arrays are read
   * with the outline's point count, so they have the same length.
   */
  function MakePoints(coords: seq<(int, int)>, tags: seq<Int8>): (points: seq<Point>)
    requires |coords| == |tags|
    ensures |points| == |coords|
    ensures forall i :: 0 <= i < |points| ==>
              points[i].tag == tags[i] && points[i].x == coords[i].0 && points[i].y == coords[i].1
  {
    if coords == [] then []
    else [Point(tags[0], coords[0].0, coords[0].1)] + MakePoints(coords[1..], tags[1..])
  }
}
