/**
 * The integer bookkeeping of the keyboard bounder: the four corners of the
 * keyboard's bounding rectangle, the corners and output size the
 * perspective correction is built from, and the pick of the tilt angle
 * among the detected line angles. The image work itself (thresholding,
 * morphology, contours, Canny, Hough, the warp) stays with OpenCV and is
 * given to the model as its results.
 */
module Bounder {
  import opened Options
  import opened Keys

  /** `KeyboardBounder.OFFSET`: how far the top corners are pulled in. */
  const OFFSET: int := 25

  // ---------------------------------------------------------------------
  // Bounds
  // ---------------------------------------------------------------------

  /**
   * `find_bounds` after `cv2.boundingRect`: the corners of the rectangle in
   * the order top-left, top-right, bottom-left, bottom-right.
   */
  function FindBounds(r: Rect): (b: seq<Point>)
    ensures |b| == 4
    ensures b[0].x == b[2].x && b[1].x == b[3].x && b[0].y == b[1].y && b[2].y == b[3].y
    ensures b[0] == Point(r.x, r.y)
    ensures b[1].x - b[0].x == r.width && b[2].y - b[0].y == r.height
  {
    [Point(r.x, r.y), Point(r.x + r.width, r.y), Point(r.x, r.y + r.height), Point(r.x + r.width, r.y + r.height)]
  }

  /**
   * What `get_bounded_section` hands to `cv2.getPerspectiveTransform` and
   * `cv2.warpPerspective`: source corners, destination corners and the
   * output size, each corner list in the order TL, TR, BL, BR.
   */
  datatype Section = Section(source: seq<Point>, dest: seq<Point>, width: int, height: int)

  /**
   * The corner and size arithmetic of `get_bounded_section`: the extent is
   * read from corners 0, 1, 0 and 2; the top corners move OFFSET inwards;
   * the destination is the upright rectangle at the origin. Fewer than
   * three corners make the indexing raise (None).
   */
  function BoundedSection(bounds: seq<Point>): (s: Option<Section>)
    ensures s.None? <==> |bounds| < 3
    ensures s.Some? ==>
      var minX, maxX, minY, maxY := bounds[0].x, bounds[1].x, bounds[0].y, bounds[2].y;
      && s.value.width == maxX - minX && s.value.height == maxY - minY
      && |s.value.source| == 4 && |s.value.dest| == 4
      && s.value.source[0] == Point(minX + OFFSET, minY) && s.value.source[1] == Point(maxX - OFFSET, minY)
      && s.value.source[2] == Point(minX, maxY) && s.value.source[3] == Point(maxX, maxY)
      && s.value.dest == FindBounds(Rect(0, 0, s.value.width, s.value.height))
  {
    if |bounds| < 3 then None
    else
      var minX, maxX, minY, maxY := bounds[0].x, bounds[1].x, bounds[0].y, bounds[2].y;
      Some(Section(
        [Point(minX + OFFSET, minY), Point(maxX - OFFSET, minY), Point(minX, maxY), Point(maxX, maxY)],
        [Point(0, 0), Point(maxX - minX, 0), Point(0, maxY - minY), Point(maxX - minX, maxY - minY)],
        maxX - minX, maxY - minY))
  }

  /**
   * Bounds from `find_bounds` read back to the rectangle they came from: the
   * output is as large as the rectangle, the bottom corners are the
   * rectangle's own, and the top corners are the rectangle's moved OFFSET
   * towards each other.
   */
  lemma SectionOfBounds(r: Rect)
    ensures var s := BoundedSection(FindBounds(r));
      && s.Some? && s.value.width == r.width && s.value.height == r.height
      && s.value.source[2..] == FindBounds(r)[2..]
      && s.value.source[0] == Point(FindBounds(r)[0].x + OFFSET, FindBounds(r)[0].y)
      && s.value.source[1] == Point(FindBounds(r)[1].x - OFFSET, FindBounds(r)[1].y)
  {
    var b := FindBounds(r);
    var s := BoundedSection(b);
    assert s.value.source[2..] == [s.value.source[2], s.value.source[3]];
    assert b[2..] == [b[2], b[3]];
  }

  /**
   * For a keyboard wider than twice the offset, both top corners move
   * inwards and stay in order, and the bottom corners do not move.
   */
  lemma InsetMovesInwards(r: Rect)
    requires r.width > 2 * OFFSET
    ensures var s := BoundedSection(FindBounds(r)).value;
      && r.x < s.source[0].x < s.source[1].x < r.x + r.width
      && s.source[0].y == s.source[1].y == r.y
      && s.source[2] == Point(r.x, r.y + r.height) && s.source[3] == Point(r.x + r.width, r.y + r.height)
  {
  }

  // ---------------------------------------------------------------------
  // Rotation
  // ---------------------------------------------------------------------

  /** A Hough segment (x1, y1, x2, y2). */
  datatype Segment = Segment(x1: int, y1: int, x2: int, y2: int)

  /** The angles of the segments, line by line, in detection order. */
  function Angles(lines: seq<seq<Segment>>, angleOf: Segment -> real): (r: seq<real>)
    ensures lines == [] ==> r == []
  {
    if lines == [] then []
    else Angles(lines[..|lines| - 1], angleOf) + seq(|lines[|lines| - 1]|, j requires 0 <= j < |lines[|lines| - 1]| => angleOf(lines[|lines| - 1][j]))
  }

  /** Every angle comes from a segment, and every segment gives one. */
  lemma {:induction false} AnglesLength(lines: seq<seq<Segment>>, angleOf: Segment -> real)
    ensures |Angles(lines, angleOf)| == SegmentCount(lines)
    decreases |lines|
  {
    if lines != [] {
      AnglesLength(lines[..|lines| - 1], angleOf);
    }
  }

  function SegmentCount(lines: seq<seq<Segment>>): nat {
    if lines == [] then 0 else SegmentCount(lines[..|lines| - 1]) + |lines[|lines| - 1]|
  }

  /**
   * `find_rotation` after `cv2.HoughLinesP`: the angle of every segment is
   * appended in detection order (`angleOf` stands for
   * `degrees(atan((y2 - y1) / (x2 - x1)))`), and the one at index
   * `int(len(angles) / 2)` is returned. No lines, or no segments, make the
   * indexing raise (None).
   */
  method FindRotation(lines: Option<seq<seq<Segment>>>, angleOf: Segment -> real) returns (r: Option<real>)
    ensures var angles := if lines.None? then [] else Angles(lines.value, angleOf);
      && (r.None? <==> angles == [])
      && (r.Some? ==> r.value == angles[|angles| / 2])
  {
    var angles: seq<real> := [];
    if lines.Some? {
      var i := 0;
      while i < |lines.value|
        invariant 0 <= i <= |lines.value|
        invariant angles == Angles(lines.value[..i], angleOf)
      {
        var line := lines.value[i];
        var j := 0;
        while j < |line|
          invariant 0 <= j <= |line|
          invariant angles == Angles(lines.value[..i], angleOf) + seq(j, k requires 0 <= k < j => angleOf(line[k]))
        {
          angles := angles + [angleOf(line[j])];
          j := j + 1;
        }
        assert lines.value[..i + 1][..i] == lines.value[..i];
        i := i + 1;
      }
      assert lines.value[..i] == lines.value;
    }
    if angles == [] {
      return None;
    }
    return Some(angles[|angles| / 2]);
  }

  // ---------------------------------------------------------------------
  // The median the index pick stands for
  // ---------------------------------------------------------------------

  /** Which side of a pivot an element is counted on. */
  datatype Side = Below | Above

  predicate Beyond(x: real, m: real, side: Side) {
    if side == Below then x < m else x > m
  }

  /** How many elements of s lie strictly on the given side of m. */
  function Count(s: seq<real>, m: real, side: Side): (c: nat)
    ensures c <= |s|
  {
    if s == [] then 0 else (if Beyond(s[0], m, side) then 1 else 0) + Count(s[1..], m, side)
  }

  lemma {:induction false} CountAppend(a: seq<real>, b: seq<real>, m: real, side: Side)
    ensures Count(a + b, m, side) == Count(a, m, side) + Count(b, m, side)
    decreases |a|
  {
    if a == [] {
      assert a + b == b;
    } else {
      CountAppend(a[1..], b, m, side);
      assert (a + b)[1..] == a[1..] + b;
    }
  }

  lemma {:induction false} CountNone(s: seq<real>, m: real, side: Side)
    requires forall i :: 0 <= i < |s| ==> !Beyond(s[i], m, side)
    ensures Count(s, m, side) == 0
    decreases |s|
  {
    if s != [] {
      CountNone(s[1..], m, side);
    }
  }

  predicate Sorted(s: seq<real>) {
    forall i, j :: 0 <= i < j < |s| ==> s[i] <= s[j]
  }

  /** x put into s before its first larger element. */
  function Insert(x: real, s: seq<real>): seq<real> {
    if s == [] || x <= s[0] then [x] + s else [s[0]] + Insert(x, s[1..])
  }

  /** Inserting adds exactly x. */
  lemma {:induction false} InsertElements(x: real, s: seq<real>)
    ensures |Insert(x, s)| == |s| + 1
    ensures multiset(Insert(x, s)) == multiset(s) + multiset{x}
    decreases |s|
  {
    if s != [] && x > s[0] {
      InsertElements(x, s[1..]);
      assert s == [s[0]] + s[1..];
    }
  }

  /** A lower bound of x and of every element of s bounds every element after the insertion. */
  lemma {:induction false} InsertLower(x: real, s: seq<real>, lo: real)
    requires lo <= x && forall i :: 0 <= i < |s| ==> lo <= s[i]
    ensures forall i :: 0 <= i < |Insert(x, s)| ==> lo <= Insert(x, s)[i]
    decreases |s|
  {
    if s != [] && x > s[0] {
      InsertLower(x, s[1..], lo);
      var rest := Insert(x, s[1..]);
      forall i | 0 <= i < |[s[0]] + rest| ensures lo <= ([s[0]] + rest)[i] {
        if i > 0 {
          assert ([s[0]] + rest)[i] == rest[i - 1];
        }
      }
    }
  }

  /** Inserting into a sorted list keeps it sorted. */
  lemma {:induction false} InsertSorted(x: real, s: seq<real>)
    requires Sorted(s)
    ensures Sorted(Insert(x, s))
    decreases |s|
  {
    if s != [] && x > s[0] {
      InsertSorted(x, s[1..]);
      InsertLower(x, s[1..], s[0]);
      SortedCons(s[0], Insert(x, s[1..]));
    }
  }

  /** A sorted list stays sorted under a head no larger than its elements. */
  lemma SortedCons(h: real, t: seq<real>)
    requires Sorted(t) && forall i :: 0 <= i < |t| ==> h <= t[i]
    ensures Sorted([h] + t)
  {
    forall i, j | 0 <= i < j < |t| + 1 ensures ([h] + t)[i] <= ([h] + t)[j] {
      if i > 0 {
        assert ([h] + t)[i] == t[i - 1];
      }
      assert ([h] + t)[j] == t[j - 1];
    }
  }

  /** Inserting x counts x once more. */
  lemma {:induction false} InsertCount(x: real, s: seq<real>, m: real, side: Side)
    ensures Count(Insert(x, s), m, side) == Count(s, m, side) + (if Beyond(x, m, side) then 1 else 0)
    decreases |s|
  {
    if s == [] || x <= s[0] {
      assert ([x] + s)[1..] == s;
    } else {
      InsertCount(x, s[1..], m, side);
      assert ([s[0]] + Insert(x, s[1..]))[1..] == Insert(x, s[1..]);
    }
  }

  /** Insertion sort, as a function. */
  function Sort(s: seq<real>): (r: seq<real>)
    ensures Sorted(r) && |r| == |s| && multiset(r) == multiset(s)
  {
    if s == [] then []
    else
      InsertSorted(s[0], Sort(s[1..]));
      InsertElements(s[0], Sort(s[1..]));
      assert s == [s[0]] + s[1..];
      Insert(s[0], Sort(s[1..]))
  }

  /** Sorting keeps every count. */
  lemma {:induction false} SortCount(s: seq<real>, m: real, side: Side)
    ensures Count(Sort(s), m, side) == Count(s, m, side)
    decreases |s|
  {
    if s != [] {
      SortCount(s[1..], m, side);
      InsertCount(s[0], Sort(s[1..]), m, side);
    }
  }

  /** The median of a non-empty list: the element at the middle index after sorting. */
  function Median(angles: seq<real>): real
    requires angles != []
  {
    Sort(angles)[|angles| / 2]
  }

  /**
   * The median is one of the angles, no more than ⌊n/2⌋ angles lie below it
   * and no more than n - 1 - ⌊n/2⌋ above it.
   */
  lemma MedianSplitsEvenly(angles: seq<real>)
    requires angles != []
    ensures Median(angles) in angles
    ensures Count(angles, Median(angles), Below) <= |angles| / 2
    ensures Count(angles, Median(angles), Above) <= |angles| - 1 - |angles| / 2
  {
    var t := Sort(angles);
    assert t[|angles| / 2] in multiset(t);
    SortCount(angles, Median(angles), Below);
    SortCount(angles, Median(angles), Above);
    SortedCounts(t, |angles| / 2);
  }

  /** In a sorted list, at most k elements lie below the k-th and at most n - 1 - k above it. */
  lemma SortedCounts(t: seq<real>, k: nat)
    requires Sorted(t) && k < |t|
    ensures Count(t, t[k], Below) <= k
    ensures Count(t, t[k], Above) <= |t| - 1 - k
  {
    SortedBelow(t, k);
    SortedAbove(t, k);
  }

  lemma SortedBelow(t: seq<real>, k: nat)
    requires Sorted(t) && k < |t|
    ensures Count(t, t[k], Below) <= k
  {
    var lo, hi := t[..k], t[k..];
    assert t == lo + hi;
    CountAppend(lo, hi, t[k], Below);
    forall i | 0 <= i < |hi| ensures !Beyond(hi[i], t[k], Below) {
      assert hi[i] == t[k + i];
    }
    CountNone(hi, t[k], Below);
  }

  lemma SortedAbove(t: seq<real>, k: nat)
    requires Sorted(t) && k < |t|
    ensures Count(t, t[k], Above) <= |t| - 1 - k
  {
    var lo, hi := t[..k + 1], t[k + 1..];
    assert t == lo + hi;
    CountAppend(lo, hi, t[k], Above);
    forall i | 0 <= i < |lo| ensures !Beyond(lo[i], t[k], Above) {
      assert lo[i] == t[i];
    }
    CountNone(lo, t[k], Above);
  }

  /**
   * `find_rotation` returns the middle angle in detection order, which is the
   * median only when the lines come sorted: three lines at 0, 5 and 1
   * degrees give 5, with two angles below it, where the median is 1.
   */
  lemma MiddleIsNotMedian()
    ensures [0.0, 5.0, 1.0][3 / 2] == 5.0
    ensures Count([0.0, 5.0, 1.0], 5.0, Below) == 2 > 3 / 2
    ensures Median([0.0, 5.0, 1.0]) == 1.0
  {
    assert [0.0, 5.0, 1.0][1..] == [5.0, 1.0];
    assert [5.0, 1.0][1..] == [1.0];
    assert [1.0][1..] == [];
    assert Sort([1.0]) == [1.0];
    assert Insert(5.0, [1.0]) == [1.0, 5.0];
    assert Insert(0.0, [1.0, 5.0]) == [0.0, 1.0, 5.0];
  }

  /**
   * The rotation as the median of the detected angles: None when there are
   * none, otherwise the angle MedianSplitsEvenly describes.
   */
  method FindMedianRotation(lines: Option<seq<seq<Segment>>>, angleOf: Segment -> real) returns (r: Option<real>)
    ensures var angles := if lines.None? then [] else Angles(lines.value, angleOf);
      && (r.None? <==> angles == [])
      && (r.Some? ==> r.value == Median(angles))
  {
    var middle := FindRotation(lines, angleOf);
    if middle.None? {
      return None;
    }
    var angles := if lines.None? then [] else Angles(lines.value, angleOf);
    return Some(Median(angles));
  }
}
