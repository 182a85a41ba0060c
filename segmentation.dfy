/**
 * Contour segmentation: the first loop of `Outline#to_svg_path` (lib/freetype/api.rb:199-209),
 * which cuts the flat point list into contours at the contour-end indices.
 */
module Segmentation {

  /** All contours laid end to end. */
  function Flatten<T>(cs: seq<seq<T>>): seq<T> {
    if cs == [] then [] else cs[0] + Flatten(cs[1..])
  }

  /**
   * The contours cut out of `points`, starting at index `from`, by the queue of end indices
   * `ends`. The next contour closes at the head of the queue when that index is reached
   * (it lies in [from, |points|)); an end that is never reached stops the segmentation, and
   * the remaining points are dropped.
   */
  function Contours<T>(points: seq<T>, ends: seq<int>, from: nat): (cs: seq<seq<T>>)
    requires from <= |points|
    ensures |cs| <= |ends|
    ensures forall i :: 0 <= i < |cs| ==> |cs[i]| > 0
    decreases |ends|
  {
    if ends == [] || !(from <= ends[0] < |points|) then []
    else
      var rest := Contours(points, ends[1..], ends[0] + 1);
      var cs := [points[from..ends[0] + 1]] + rest;
      assert cs[1..] == rest;
      cs
  }

  /**
   * Whatever the ends, the contours laid end to end are the points from `from` on, in
   * order, up to some cut-off: nothing is reordered or repeated, only a tail is dropped.
   */
  lemma {:induction false} ContoursArePrefix<T>(points: seq<T>, ends: seq<int>, from: nat)
    requires from <= |points|
    ensures var flat := Flatten(Contours(points, ends, from));
            from + |flat| <= |points| && flat == points[from..from + |flat|]
    decreases |ends|
  {
    if ends != [] && from <= ends[0] < |points| {
      var rest := Contours(points, ends[1..], ends[0] + 1);
      var cs := Contours(points, ends, from);
      assert cs == [points[from..ends[0] + 1]] + rest;
      assert cs[1..] == rest;
      ContoursArePrefix(points, ends[1..], ends[0] + 1);
      var flatRest := Flatten(rest);
      assert Flatten(cs) == points[from..ends[0] + 1] + points[ends[0] + 1..ends[0] + 1 + |flatRest|];
    }
  }

  /**
   * What a well-formed outline promises: the ends are strictly increasing, start at or
   * after 0, the last one is the last point, and there are ends exactly when there are points.
   */
  predicate WellFormedEnds(ends: seq<int>, n: nat) {
    (ends == [] <==> n == 0) &&
    (forall i, j :: 0 <= i < j < |ends| ==> ends[i] < ends[j]) &&
    (ends != [] ==> 0 <= ends[0] && ends[|ends| - 1] == n - 1)
  }

  /** Generalisation of `WellFormedEnds` to the tail of the queue that begins at `from`. */
  predicate EndsFrom(ends: seq<int>, from: int, n: nat) {
    (ends == [] <==> from == n) &&
    (forall i, j :: 0 <= i < j < |ends| ==> ends[i] < ends[j]) &&
    (ends != [] ==> from <= ends[0] && ends[|ends| - 1] == n - 1)
  }

  /** The tail of a well-formed queue is well formed from one past its head. */
  lemma EndsFromTail(ends: seq<int>, from: int, n: nat)
    requires EndsFrom(ends, from, n) && ends != []
    ensures from <= ends[0] < n && EndsFrom(ends[1..], ends[0] + 1, n)
  {
    if |ends| > 1 {
      assert ends[0] < ends[|ends| - 1];
    }
  }

  /** The first contour is cut when the head of the queue lies ahead of `from`. */
  lemma ContoursCons<T>(points: seq<T>, ends: seq<int>, from: nat)
    requires ends != [] && from <= ends[0] < |points|
    ensures Contours(points, ends, from) == [points[from..ends[0] + 1]] + Contours(points, ends[1..], ends[0] + 1)
  {
  }

  lemma {:induction false} PartitionFrom<T>(points: seq<T>, ends: seq<int>, from: nat)
    requires from <= |points| && EndsFrom(ends, from, |points|)
    ensures |Contours(points, ends, from)| == |ends|
    ensures Flatten(Contours(points, ends, from)) == points[from..]
    decreases |ends|
  {
    if ends != [] {
      EndsFromTail(ends, from, |points|);
      PartitionFrom(points, ends[1..], ends[0] + 1);
      var cs := Contours(points, ends, from);
      var rest := Contours(points, ends[1..], ends[0] + 1);
      ContoursCons(points, ends, from);
      assert cs[1..] == rest;
      calc {
        Flatten(cs);
        points[from..ends[0] + 1] + Flatten(rest);
        points[from..ends[0] + 1] + points[ends[0] + 1..];
        points[from..];
      }
    }
  }

  /** Where contour i of the queue `ends` begins when the first one begins at `from`. */
  function StartFrom(ends: seq<int>, from: int, i: nat): int
    requires i < |ends|
  {
    if i == 0 then from else ends[i - 1] + 1
  }

  lemma {:induction false} ContourAt<T>(points: seq<T>, ends: seq<int>, from: nat, i: nat)
    requires from <= |points| && EndsFrom(ends, from, |points|) && i < |ends|
    ensures i < |Contours(points, ends, from)|
    ensures from <= StartFrom(ends, from, i) <= ends[i] < |points|
    ensures Contours(points, ends, from)[i] == points[StartFrom(ends, from, i)..ends[i] + 1]
    decreases i
  {
    EndsFromTail(ends, from, |points|);
    var tail := ends[1..];
    var cs := Contours(points, ends, from);
    var rest := Contours(points, tail, ends[0] + 1);
    ContoursCons(points, ends, from);
    if i == 0 {
      assert cs[0] == points[from..ends[0] + 1];
    } else {
      ContourAt(points, tail, ends[0] + 1, i - 1);
      var start := StartFrom(tail, ends[0] + 1, i - 1);
      assert start == StartFrom(ends, from, i);
      assert tail[i - 1] == ends[i];
      assert cs[i] == rest[i - 1];
      assert rest[i - 1] == points[start..ends[i] + 1];
    }
  }

  /**
   * Partition: for well-formed ends, the contours are exactly the points, in order, with one
   * contour per end, and contour i running from StartFrom(ends, 0, i) through ends[i].
   */
  lemma ContoursPartition<T>(points: seq<T>, ends: seq<int>)
    requires WellFormedEnds(ends, |points|)
    ensures |Contours(points, ends, 0)| == |ends|
    ensures Flatten(Contours(points, ends, 0)) == points
    ensures forall i :: 0 <= i < |ends| ==>
              0 <= StartFrom(ends, 0, i) <= ends[i] < |points| &&
              Contours(points, ends, 0)[i] == points[StartFrom(ends, 0, i)..ends[i] + 1]
  {
    PartitionFrom(points, ends, 0);
    forall i | 0 <= i < |ends|
      ensures 0 <= StartFrom(ends, 0, i) <= ends[i] < |points| &&
              Contours(points, ends, 0)[i] == points[StartFrom(ends, 0, i)..ends[i] + 1]
    {
      ContourAt(points, ends, 0, i);
    }
  }

  /**
   * Conversely, when every end was used and every point was placed in a contour, the ends
   * were well formed: the well-formed outlines are exactly those segmented without loss.
   */
  lemma {:induction false} ExactSegmentationNeedsWellFormedEnds<T>(points: seq<T>, ends: seq<int>, from: nat)
    requires from <= |points|
    requires |Contours(points, ends, from)| == |ends|
    requires Flatten(Contours(points, ends, from)) == points[from..]
    ensures EndsFrom(ends, from, |points|)
    decreases |ends|
  {
    var cs := Contours(points, ends, from);
    if ends == [] {
      assert points[from..] == [];
    } else {
      assert from <= ends[0] < |points|;
      var rest := Contours(points, ends[1..], ends[0] + 1);
      assert cs == [points[from..ends[0] + 1]] + rest;
      assert cs[1..] == rest;
      assert Flatten(cs) == points[from..ends[0] + 1] + Flatten(rest);
      assert |Flatten(rest)| == |points| - (ends[0] + 1);
      assert Flatten(rest) == points[ends[0] + 1..] by {
        assert Flatten(rest) == Flatten(cs)[ends[0] + 1 - from..];
      }
      ExactSegmentationNeedsWellFormedEnds(points, ends[1..], ends[0] + 1);
    }
  }

  /**
   * No validation: the non-increasing ends [5, 3] over ten points do not raise; the first
   * contour (points 0..5) is kept and the four points after it are dropped.
   */
  lemma UnsortedEndsDropPoints<T>(points: seq<T>)
    requires |points| == 10
    ensures Contours(points, [5, 3], 0) == [points[..6]]
  {
    assert Contours(points, [3], 6) == [];
  }

  /** Closing the contour at the head of the queue moves it from the remaining contours to the done ones. */
  lemma CloseContourStep<T>(points: seq<T>, ends: seq<int>, from: nat, done: seq<seq<T>>, contour: seq<T>)
    requires ends != [] && from <= ends[0] < |points| && contour == points[from..ends[0] + 1]
    ensures done + Contours(points, ends, from) == (done + [contour]) + Contours(points, ends[1..], ends[0] + 1)
  {
    ContoursCons(points, ends, from);
  }

  lemma ExtendSlice<T>(s: seq<T>, lo: nat, hi: nat)
    requires lo <= hi < |s|
    ensures s[lo..hi] + [s[hi]] == s[lo..hi + 1]
  {
  }

  /**
   * One iteration of the segmentation loop: point `index` joins the open contour, and when
   * `index` is the head of the end queue, the queue is shifted and the contour is closed.
   * `from` is where the open contour began; the contours still to be cut from there on are
   * the same before and after, once the closed ones are counted.
   */
  method TakePoint<T>(points: seq<T>, index: nat, pending: seq<int>, contours: seq<seq<T>>,
                      contour: seq<T>, ghost from: nat)
    returns (pending': seq<int>, contours': seq<seq<T>>, contour': seq<T>, ghost from': nat)
    requires from <= index < |points| && contour == points[from..index]
    requires pending != [] ==> !(from <= pending[0] < index)
    ensures (pending', contours', contour') ==
              if pending != [] && index == pending[0] then (pending[1..], contours + [contour + [points[index]]], [])
              else (pending, contours, contour + [points[index]])
    ensures from' <= index + 1 && contour' == points[from'..index + 1]
    ensures pending' != [] ==> !(from' <= pending'[0] < index + 1)
    ensures contours' + Contours(points, pending', from') == contours + Contours(points, pending, from)
  {
    ExtendSlice(points, from, index);
    pending', contours', contour', from' := pending, contours, contour + [points[index]], from;
    if pending != [] && index == pending[0] {
      CloseContourStep(points, pending, from, contours, contour');
      pending' := pending[1..];
      contours' := contours + [contour'];
      contour' := [];
      from' := index + 1;
    }
  }

  /**
   * The segmentation loop of `to_svg_path` (lines 199-209): each point in turn is taken
   * into the open contour, which is closed when its index reaches the head of the end queue.
   */
  method SplitContours<T>(points: seq<T>, ends: seq<int>) returns (contours: seq<seq<T>>)
    ensures contours == Contours(points, ends, 0)
  {
    var pending := ends;
    contours := [];
    var contour: seq<T> := [];
    ghost var from := 0;
    var index := 0;
    while index < |points|
      invariant 0 <= from <= index <= |points|
      invariant contour == points[from..index]
      invariant pending != [] ==> !(from <= pending[0] < index)
      invariant contours + Contours(points, pending, from) == Contours(points, ends, 0)
    {
      pending, contours, contour, from := TakePoint(points, index, pending, contours, contour, from);
      index := index + 1;
    }
  }
}
