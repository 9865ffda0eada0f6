/**
 * White-key construction of the key layout: the pass that thins doubled
 * edge pixels in the edge image of the white-key band, the sorted list of
 * boundary positions taken from the detected line segments, and the merge
 * of boundaries closer than 5 px into white-key rectangles.
 */
module WhiteKeys {
  import opened Keys

  /** An 8-bit pixel of the single-channel edge image. */
  type Pixel = v: int | 0 <= v < 256

  // ---------------------------------------------------------------------
  // Suppression of doubled edge pixels (one image row at a time, in place)
  // ---------------------------------------------------------------------

  function NonZeroCount(s: seq<Pixel>): nat {
    if s == [] then 0 else NonZeroCount(s[..|s| - 1]) + (if s[|s| - 1] != 0 then 1 else 0)
  }

  /** Writing one pixel changes the count by what leaves and what arrives. */
  lemma {:induction false} NonZeroCountUpdate(s: seq<Pixel>, i: nat, v: Pixel)
    requires i < |s|
    ensures NonZeroCount(s[i := v]) + (if s[i] != 0 then 1 else 0)
         == NonZeroCount(s) + (if v != 0 then 1 else 0)
  {
    var t := s[i := v];
    if i < |s| - 1 {
      assert t[..|t| - 1] == s[..|s| - 1][i := v];
      NonZeroCountUpdate(s[..|s| - 1], i, v);
    } else {
      assert t[..|t| - 1] == s[..|s| - 1];
    }
  }

  /**
   * One iteration of the inner loop, at column col, on the row as it stands:
   * `val` is the pixel at col at that moment.
   */
  function Step(row: seq<Pixel>, col: nat): (r: seq<Pixel>)
    requires col < |row|
    ensures |r| == |row|
  {
    var val := row[col];
    var r1 := if val != 0 && col < |row| - 3 && row[col + 2] != 0
              then row[col + 1 := val][col + 2 := 0][col := 0]
              else row;
    if val != 0 && col < |row| - 2 && r1[col + 1] != 0 then r1[col := 0] else r1
  }

  /** The row after the inner loop has run over columns 0 .. c-1. */
  function SuppressedUpTo(row: seq<Pixel>, c: nat): (r: seq<Pixel>)
    requires c <= |row|
    ensures |r| == |row|
  {
    if c == 0 then row else Step(SuppressedUpTo(row, c - 1), c - 1)
  }

  /** The row after the whole inner loop. */
  function Suppressed(row: seq<Pixel>): seq<Pixel> {
    SuppressedUpTo(row, |row|)
  }

  /** What one iteration at column col can do to the row. */
  lemma StepEffect(row: seq<Pixel>, col: nat)
    requires col < |row|
    ensures var r := Step(row, col);
      && NonZeroCount(r) <= NonZeroCount(row)
      && (forall k :: 0 <= k < |row| && k != col && k != col + 1 && k != col + 2 ==> r[k] == row[k])
      && (r[col] == 0 || r[col] == row[col])
      && (col + 1 < |row| ==> r[col + 1] == row[col + 1] || r[col + 1] == row[col])
      && (col + 2 < |row| ==> r[col + 2] == row[col + 2] || r[col + 2] == 0)
      && (col < |row| - 2 ==> r[col] == 0 || r[col + 1] == 0)
      && r[|row| - 1] == row[|row| - 1]
  {
    var n := |row|;
    var val := row[col];
    var r1 := row;
    if val != 0 && col < n - 3 && row[col + 2] != 0 {
      var a := row[col + 1 := val];
      var b := a[col + 2 := 0];
      r1 := b[col := 0];
      NonZeroCountUpdate(row, col + 1, val);
      NonZeroCountUpdate(a, col + 2, 0);
      NonZeroCountUpdate(b, col, 0);
    }
    assert r1 == if val != 0 && col < n - 3 && row[col + 2] != 0
                 then row[col + 1 := val][col + 2 := 0][col := 0] else row;
    if val != 0 && col < n - 2 && r1[col + 1] != 0 {
      NonZeroCountUpdate(r1, col, 0);
    }
  }

  /** What the inner loop keeps true after columns 0 .. c-1. */
  lemma {:induction false} SuppressedUpToInvariant(row: seq<Pixel>, c: nat)
    requires c <= |row|
    ensures var r := SuppressedUpTo(row, c);
      && NonZeroCount(r) <= NonZeroCount(row)
      && (forall k :: c + 2 <= k < |row| ==> r[k] == row[k])
      && (forall k :: 0 <= k < |row| ==> r[k] == 0 || r[k] in row)
      && (forall k :: 0 <= k < c && k < |row| - 2 ==> r[k] == 0 || r[k + 1] == 0)
      && (|row| > 0 ==> r[|row| - 1] == row[|row| - 1])
  {
    if c > 0 {
      SuppressedUpToInvariant(row, c - 1);
      var p := SuppressedUpTo(row, c - 1);
      StepEffect(p, c - 1);
      var r := Step(p, c - 1);
      forall k | 0 <= k < |row| ensures r[k] == 0 || r[k] in row {
        if k == c {
          assert r[k] == p[k] || r[k] == p[c - 1];
        }
      }
      forall k | 0 <= k < c && k < |row| - 2 ensures r[k] == 0 || r[k + 1] == 0 {
        if k < c - 1 {
          assert r[k] == p[k];
          if k + 1 < c - 1 {
            assert r[k + 1] == p[k + 1];
          } else {
            assert r[k + 1] == 0 || r[k + 1] == p[k + 1];
          }
        }
      }
    }
  }

  /**
   * The suppression pass never adds a non-zero pixel, writes a pixel only
   * with 0 or with a value the row already held, never writes the last
   * column, and leaves no non-zero pixel before column len-2 with a non-zero
   * right neighbour.
   */
  lemma SuppressionProperties(row: seq<Pixel>)
    ensures var r := Suppressed(row);
      && |r| == |row|
      && NonZeroCount(r) <= NonZeroCount(row)
      && (forall k :: 0 <= k < |row| ==> r[k] == 0 || r[k] in row)
      && (forall k :: 0 <= k < |row| - 2 ==> r[k] == 0 || r[k + 1] == 0)
      && (|row| > 0 ==> r[|row| - 1] == row[|row| - 1])
  {
    SuppressedUpToInvariant(row, |row|);
  }

  /** Row r of an image, as a sequence. */
  ghost function Row(img: array2<Pixel>, r: nat): (s: seq<Pixel>)
    requires r < img.Length0
    reads img
    ensures |s| == img.Length1
  {
    seq(img.Length1, j requires 0 <= j < img.Length1 reads img => img[r, j])
  }

  /**
   * The nested loop over the rows of the band and the columns of each row,
   * updating the image in place.
   */
  method SuppressDoubledEdges(img: array2<Pixel>)
    modifies img
    ensures forall r :: 0 <= r < img.Length0 ==> Row(img, r) == Suppressed(old(Row(img, r)))
  {
    var r := 0;
    while r < img.Length0
      invariant 0 <= r <= img.Length0
      invariant forall q :: 0 <= q < r ==> Row(img, q) == Suppressed(old(Row(img, q)))
      invariant forall q :: r <= q < img.Length0 ==> Row(img, q) == old(Row(img, q))
    {
      SuppressRow(img, r);
      r := r + 1;
    }
  }

  /** The inner loop: `for col, val in enumerate(row)` over one row. */
  method SuppressRow(img: array2<Pixel>, r: nat)
    requires r < img.Length0
    modifies img
    ensures Row(img, r) == Suppressed(old(Row(img, r)))
    ensures forall q, j :: 0 <= q < img.Length0 && q != r && 0 <= j < img.Length1 ==> img[q, j] == old(img[q, j])
  {
    var n := img.Length1;
    ghost var before := Row(img, r);
    var col := 0;
    while col < n
      invariant 0 <= col <= n
      invariant Row(img, r) == SuppressedUpTo(before, col)
      invariant forall q, j :: 0 <= q < img.Length0 && q != r && 0 <= j < n ==> img[q, j] == old(img[q, j])
    {
      ghost var cur := Row(img, r);
      var val := img[r, col];
      if val != 0 && col < n - 3 && img[r, col + 2] != 0 {
        img[r, col + 1] := val;
        img[r, col + 2] := 0;
        img[r, col] := 0;
      }
      ghost var mid := Row(img, r);
      assert mid == if val != 0 && col < n - 3 && cur[col + 2] != 0
                    then cur[col + 1 := val][col + 2 := 0][col := 0] else cur;
      if val != 0 && col < n - 2 && img[r, col + 1] != 0 {
        img[r, col] := 0;
      }
      assert Row(img, r) == Step(cur, col);
      col := col + 1;
    }
  }

  // ---------------------------------------------------------------------
  // Boundary positions
  // ---------------------------------------------------------------------

  /** A detected line segment (x1, y1, x2, y2). */
  datatype Segment = Segment(x1: int, y1: int, x2: int, y2: int)

  /**
   * `int(round((x1 + x2) / 2))`: the nearest integer to the midpoint, a
   * midpoint half-way between two integers going to the even one (Python
   * and NumPy round halves to even).
   */
  function MidX(l: Segment): (m: int)
    ensures (l.x1 + l.x2) % 2 == 0 ==> 2 * m == l.x1 + l.x2
    ensures (l.x1 + l.x2) % 2 == 1 ==> (2 * m == l.x1 + l.x2 - 1 || 2 * m == l.x1 + l.x2 + 1) && m % 2 == 0
  {
    var s := l.x1 + l.x2;
    if s % 2 == 0 then s / 2
    else
      var f := s / 2;
      if f % 2 == 0 then f else f + 1
  }

  predicate StrictlySorted(s: seq<int>) {
    forall i, j :: 0 <= i < j < |s| ==> s[i] < s[j]
  }

  /** The head of a strictly sorted list is below every other element. */
  lemma SortedHead(s: seq<int>)
    requires StrictlySorted(s) && s != []
    ensures StrictlySorted(s[1..]) && forall e :: e in s[1..] ==> e > s[0]
  {
    forall e | e in s[1..] ensures e > s[0] {
      var i :| 0 <= i < |s[1..]| && s[1..][i] == e;
      assert s[i + 1] == e;
    }
  }

  /** A value below every element of a strictly sorted list can go in front of it. */
  lemma PrependSorted(x: int, s: seq<int>)
    requires StrictlySorted(s) && forall e :: e in s ==> e > x
    ensures StrictlySorted([x] + s)
  {
    var r := [x] + s;
    forall i, j | 0 <= i < j < |r| ensures r[i] < r[j] {
      assert r[j] == s[j - 1] && r[j] in s;
      if i > 0 {
        assert r[i] == s[i - 1];
      }
    }
  }

  /** Adds v to a strictly sorted list unless it is already there. */
  function Insert(s: seq<int>, v: int): (r: seq<int>)
    requires StrictlySorted(s)
    ensures StrictlySorted(r)
    ensures forall e :: e in r <==> e in s || e == v
  {
    if s == [] then [v]
    else if v < s[0] then [v] + s
    else if v == s[0] then s
    else
      var rest := Insert(s[1..], v);
      SortedHead(s);
      PrependSorted(s[0], rest);
      assert s == [s[0]] + s[1..];
      [s[0]] + rest
  }

  function InsertMids(b: seq<int>, lines: seq<Segment>): (r: seq<int>)
    requires StrictlySorted(b)
    ensures StrictlySorted(r)
    ensures forall e :: e in r <==> e in b || exists l :: l in lines && MidX(l) == e
    decreases |lines|
  {
    if lines == [] then b
    else
      var r := InsertMids(Insert(b, MidX(lines[0])), lines[1..]);
      assert forall l :: l in lines <==> l == lines[0] || l in lines[1..];
      r
  }

  /**
   * `sorted(boundaries)` for the set holding 0, the midpoint x of every
   * detected segment and the band's width: increasing, without repeats,
   * and holding exactly those values.
   */
  function Boundaries(lines: seq<Segment>, width: int): (b: seq<int>)
    ensures StrictlySorted(b)
    ensures forall e :: e in b <==> e == 0 || e == width || exists l :: l in lines && MidX(l) == e
  {
    Insert(InsertMids([0], lines), width)
  }

  // ---------------------------------------------------------------------
  // Merging close boundaries into white keys
  // ---------------------------------------------------------------------

  /** Whether the gap from boundary i to boundary i+1 opens a key (more than 5 px). */
  predicate Wide(b: seq<int>, i: nat)
    requires i + 1 < |b|
  {
    Dist(b[i], b[i + 1]) > 5
  }

  /**
   * The first boundary of the run of close boundaries that ends at
   * boundary i: every gap from it to i is at most 5 px, and the gap just
   * before it (if any) is wider.
   */
  function RunStart(b: seq<int>, i: nat): (j: nat)
    requires i < |b|
    ensures j <= i
  {
    if i == 0 then 0 else if !Wide(b, i - 1) then RunStart(b, i - 1) else i
  }

  /** The run ending at boundary i is all close gaps, and a wide gap (or the list start) precedes it. */
  lemma {:induction false} RunIsClose(b: seq<int>, i: nat)
    requires i < |b|
    ensures forall k :: RunStart(b, i) <= k < i ==> !Wide(b, k)
    ensures RunStart(b, i) > 0 ==> Wide(b, RunStart(b, i) - 1)
  {
    if i > 0 && !Wide(b, i - 1) {
      RunIsClose(b, i - 1);
    }
  }

  /** `int(x)` of x = s / 2: true division, then truncation toward zero. */
  function TruncHalf(s: int): int {
    if s >= 0 then s / 2 else -((-s) / 2)
  }

  /** The halving rounds toward zero: it is within one half of s / 2, on the side of 0. */
  lemma TruncHalfTowardZero(s: int)
    ensures s >= 0 ==> 0 <= s - 2 * TruncHalf(s) <= 1
    ensures s < 0 ==> 0 <= 2 * TruncHalf(s) - s <= 1
  {
  }

  /**
   * `int(np.median(close))`: the middle element of an odd-length list, and
   * for an even length the mean of the two middle ones, truncated. For a
   * sorted list the result lies between the first and the last element.
   */
  function Median(s: seq<int>): int
    requires |s| > 0
  {
    var h := |s| / 2;
    if |s| % 2 == 1 then s[h] else TruncHalf(s[h - 1] + s[h])
  }

  /** The median of a sorted run lies between its first and last element. */
  lemma MedianBounds(s: seq<int>)
    requires |s| > 0 && StrictlySorted(s)
    ensures s[0] <= Median(s) <= s[|s| - 1]
  {
    var h := |s| / 2;
    if |s| % 2 == 0 {
      assert s[0] <= s[h - 1] < s[h] <= s[|s| - 1];
    }
  }

  /**
   * The key that a wide gap i emits: it starts at the median of the run of
   * close boundaries ending at boundary i and ends at boundary i+1.
   */
  function KeyAt(b: seq<int>, height: int, i: nat): Rect
    requires i + 1 < |b|
  {
    var x := Median(b[RunStart(b, i)..i + 1]);
    Rect(x, 0, b[i + 1] - x, height)
  }

  /** The keys emitted by the gaps before boundary n, in order. */
  function KeysUpTo(b: seq<int>, height: int, n: nat): seq<Rect>
    requires n < |b|
  {
    if n == 0 then []
    else KeysUpTo(b, height, n - 1) + (if Wide(b, n - 1) then [KeyAt(b, height, n - 1)] else [])
  }

  /** All keys of a boundary list. */
  function WhiteKeyRects(b: seq<int>, height: int): seq<Rect> {
    if b == [] then [] else KeysUpTo(b, height, |b| - 1)
  }

  function End(r: Rect): int {
    r.x + r.width
  }

  /** The key a wide gap emits spans the frame height and ends on the next boundary. */
  lemma KeyAtShape(b: seq<int>, height: int, i: nat)
    requires StrictlySorted(b) && i + 1 < |b| && Wide(b, i)
    ensures var k := KeyAt(b, height, i);
      && k.y == 0 && k.height == height && k.width > 5 && End(k) == b[i + 1]
      && b[RunStart(b, i)] <= k.x <= b[i]
  {
    var run := b[RunStart(b, i)..i + 1];
    assert StrictlySorted(run);
    MedianBounds(run);
    assert run[0] == b[RunStart(b, i)] && run[|run| - 1] == b[i];
  }

  /** r is the key of some wide gap before boundary n. */
  predicate EmittedBefore(b: seq<int>, height: int, n: nat, r: Rect)
    requires n < |b|
  {
    exists i: nat :: i < n && Wide(b, i) && r == KeyAt(b, height, i)
  }

  /** No key of ks reaches past e. */
  predicate EndsBy(ks: seq<Rect>, e: int) {
    forall m :: 0 <= m < |ks| ==> End(ks[m]) <= e
  }

  /** Each key of ks starts no earlier than every earlier key ends. */
  predicate InOrder(ks: seq<Rect>) {
    forall m, m' :: 0 <= m < m' < |ks| ==> End(ks[m]) <= ks[m'].x
  }

  lemma EndsByAppend(ks: seq<Rect>, k: Rect, e: int, e': int)
    requires EndsBy(ks, e) && e <= e' && End(k) <= e'
    ensures EndsBy(ks + [k], e')
  {
    forall m | 0 <= m < |ks + [k]|
      ensures End((ks + [k])[m]) <= e'
    {
      if m < |ks| {
        assert (ks + [k])[m] == ks[m];
      }
    }
  }

  lemma EndsByMono(ks: seq<Rect>, e: int, e': int)
    requires EndsBy(ks, e) && e <= e'
    ensures EndsBy(ks, e')
  {
  }

  lemma InOrderAppend(ks: seq<Rect>, k: Rect)
    requires InOrder(ks) && EndsBy(ks, k.x)
    ensures InOrder(ks + [k])
  {
    var r := ks + [k];
    forall m, m' | 0 <= m < m' < |r|
      ensures End(r[m]) <= r[m'].x
    {
      assert r[m] == ks[m];
      if m' < |ks| {
        assert r[m'] == ks[m'];
      }
    }
  }

  /** Every key emitted before boundary n is the key of a wide gap before n. */
  lemma {:induction false} KeysUpToKeys(b: seq<int>, height: int, n: nat)
    requires n < |b|
    ensures forall m :: 0 <= m < |KeysUpTo(b, height, n)| ==> EmittedBefore(b, height, n, KeysUpTo(b, height, n)[m])
  {
    if n > 0 {
      KeysUpToKeys(b, height, n - 1);
      var prev := KeysUpTo(b, height, n - 1);
      var ks := KeysUpTo(b, height, n);
      forall m | 0 <= m < |ks|
        ensures EmittedBefore(b, height, n, ks[m])
      {
        if m < |prev| {
          assert ks[m] == prev[m];
          assert EmittedBefore(b, height, n - 1, prev[m]);
          var i: nat :| i < n - 1 && Wide(b, i) && prev[m] == KeyAt(b, height, i);
        } else {
          assert Wide(b, n - 1) && ks[m] == KeyAt(b, height, n - 1);
        }
      }
    }
  }

  /** The keys emitted before boundary n end no later than the first boundary of the run that ends at n. */
  lemma {:induction false} KeysUpToEnds(b: seq<int>, height: int, n: nat)
    requires StrictlySorted(b) && n < |b|
    ensures EndsBy(KeysUpTo(b, height, n), b[RunStart(b, n)])
  {
    if n > 0 {
      KeysUpToEnds(b, height, n - 1);
      var prev := KeysUpTo(b, height, n - 1);
      if Wide(b, n - 1) {
        KeyAtShape(b, height, n - 1);
        assert RunStart(b, n) == n;
        assert b[RunStart(b, n - 1)] <= b[n - 1] < b[n];
        EndsByAppend(prev, KeyAt(b, height, n - 1), b[RunStart(b, n - 1)], b[n]);
      } else {
        assert RunStart(b, n) == RunStart(b, n - 1);
        assert KeysUpTo(b, height, n) == prev;
      }
    }
  }

  /** After a wide gap, the last key emitted before boundary n ends exactly on the first boundary of n's run. */
  lemma {:induction false} KeysUpToLastEnd(b: seq<int>, height: int, n: nat)
    requires StrictlySorted(b) && n < |b| && RunStart(b, n) > 0
    ensures |KeysUpTo(b, height, n)| > 0
    ensures End(KeysUpTo(b, height, n)[|KeysUpTo(b, height, n)| - 1]) == b[RunStart(b, n)]
  {
    if Wide(b, n - 1) {
      KeyAtShape(b, height, n - 1);
      assert RunStart(b, n) == n;
    } else {
      assert RunStart(b, n) == RunStart(b, n - 1);
      KeysUpToLastEnd(b, height, n - 1);
      assert KeysUpTo(b, height, n) == KeysUpTo(b, height, n - 1);
    }
  }

  /** The keys emitted before boundary n do not overlap, in order. */
  lemma {:induction false} KeysUpToOrdered(b: seq<int>, height: int, n: nat)
    requires StrictlySorted(b) && n < |b|
    ensures InOrder(KeysUpTo(b, height, n))
  {
    if n > 0 {
      KeysUpToOrdered(b, height, n - 1);
      var prev := KeysUpTo(b, height, n - 1);
      if Wide(b, n - 1) {
        KeysUpToEnds(b, height, n - 1);
        KeyAtShape(b, height, n - 1);
        var k := KeyAt(b, height, n - 1);
        EndsByMono(prev, b[RunStart(b, n - 1)], k.x);
        InOrderAppend(prev, k);
        assert KeysUpTo(b, height, n) == prev + [k];
      } else {
        assert KeysUpTo(b, height, n) == prev;
      }
    }
  }

  /**
   * The white keys that come out of a sorted boundary list: each is
   * `(start, 0, end - start, height)` with a width above 5 and an end on a
   * boundary; they are in increasing x and do not overlap; and none reaches
   * past the first boundary of the trailing run of close boundaries, so a
   * trailing run emits no key.
   */
  lemma WhiteKeyRectsShape(b: seq<int>, height: int)
    requires StrictlySorted(b) && |b| > 0
    ensures var ks := WhiteKeyRects(b, height);
      && (forall m :: 0 <= m < |ks| ==> ks[m].y == 0 && ks[m].height == height && ks[m].width > 5)
      && (forall m :: 0 <= m < |ks| ==> End(ks[m]) in b)
      && (forall m, m' :: 0 <= m < m' < |ks| ==> End(ks[m]) <= ks[m'].x && ks[m].x < ks[m'].x)
      && (forall m :: 0 <= m < |ks| ==> End(ks[m]) <= b[RunStart(b, |b| - 1)])
      && (|b| >= 2 && !Wide(b, |b| - 2) ==> forall m :: 0 <= m < |ks| ==> End(ks[m]) < b[|b| - 1])
  {
    var n := |b| - 1;
    var ks := KeysUpTo(b, height, n);
    assert WhiteKeyRects(b, height) == ks;
    KeysUpToKeys(b, height, n);
    KeysUpToEnds(b, height, n);
    KeysUpToOrdered(b, height, n);
    forall m | 0 <= m < |ks|
      ensures ks[m].y == 0 && ks[m].height == height && ks[m].width > 5 && End(ks[m]) in b
    {
      assert EmittedBefore(b, height, n, ks[m]);
      var i: nat :| i < n && Wide(b, i) && ks[m] == KeyAt(b, height, i);
      KeyAtShape(b, height, i);
    }
    forall m, m' | 0 <= m < m' < |ks|
      ensures End(ks[m]) <= ks[m'].x && ks[m].x < ks[m'].x
    {
    }
    if |b| >= 2 && !Wide(b, |b| - 2) {
      assert RunStart(b, n) == RunStart(b, n - 1) <= n - 1;
      assert b[RunStart(b, n)] < b[n];
    }
  }

  /** A run of close boundaries collapses to one key start: its median. */
  lemma RunCollapses(b: seq<int>, height: int, i: nat)
    requires StrictlySorted(b) && i + 1 < |b| && Wide(b, i)
    ensures KeyAt(b, height, i) in WhiteKeyRects(b, height)
    ensures KeyAt(b, height, i).x == Median(b[RunStart(b, i)..i + 1])
    ensures b[RunStart(b, i)] <= KeyAt(b, height, i).x <= b[i]
  {
    assert WhiteKeyRects(b, height) == KeysUpTo(b, height, |b| - 1);
    KeyInPrefix(b, height, i, |b| - 1);
    KeyAtShape(b, height, i);
  }

  lemma {:induction false} KeyInPrefix(b: seq<int>, height: int, i: nat, n: nat)
    requires i < n < |b| && Wide(b, i)
    ensures KeyAt(b, height, i) in KeysUpTo(b, height, n)
  {
    var prev := KeysUpTo(b, height, n - 1);
    if n - 1 > i {
      KeyInPrefix(b, height, i, n - 1);
      assert KeysUpTo(b, height, n) == prev + (if Wide(b, n - 1) then [KeyAt(b, height, n - 1)] else []);
    } else {
      assert KeysUpTo(b, height, n) == prev + [KeyAt(b, height, i)];
    }
  }

  /** How one step of the merge loop moves the run start and the emitted keys. */
  lemma MergeStep(b: seq<int>, height: int, i: nat)
    requires i + 1 < |b|
    ensures RunStart(b, i) <= i
    ensures b[RunStart(b, i)..i] + [b[i]] == b[RunStart(b, i)..i + 1]
    ensures !Wide(b, i) ==> RunStart(b, i + 1) == RunStart(b, i) && KeysUpTo(b, height, i + 1) == KeysUpTo(b, height, i)
    ensures Wide(b, i) ==> RunStart(b, i + 1) == i + 1 && KeysUpTo(b, height, i + 1) == KeysUpTo(b, height, i) + [KeyAt(b, height, i)]
  {
  }

  /**
   * The merge loop: walks consecutive boundary pairs, collecting the close
   * ones in `close` and emitting a key whenever a gap is wider than 5 px.
   */
  method MergeBoundaries(b: seq<int>, height: int) returns (keys: seq<Rect>)
    ensures keys == WhiteKeyRects(b, height)
  {
    keys := [];
    if |b| == 0 {
      return;
    }
    var close: seq<int> := [];
    var i := 0;
    ghost var j := 0;
    while i < |b| - 1
      invariant 0 <= j <= i < |b|
      invariant j == RunStart(b, i)
      invariant close == b[j..i]
      invariant keys == KeysUpTo(b, height, i)
    {
      var start, end := b[i], b[i + 1];
      MergeStep(b, height, i);
      if Dist(start, end) <= 5 {
        close := close + [start];
      } else {
        ghost var run := close + [start];
        if close != [] {
          close := close + [start];
          start := Median(close);
          close := [];
        }
        assert start == Median(run);
        keys := keys + [Rect(start, 0, end - start, height)];
        j := i + 1;
      }
      i := i + 1;
    }
  }

  function Dist(a: int, b: int): nat {
    if a >= b then a - b else b - a
  }

  /**
   * `find_white_keys` from the edge image of the white-key band on: thins
   * doubled edges in place, then builds the white keys from the boundary
   * list of the line segments found on the thinned image (the line
   * detection itself is a parameter: `lines`). Every key spans the whole
   * frame height.
   */
  method FindWhiteKeys(band: array2<Pixel>, lines: seq<Segment>, frameHeight: int) returns (keys: seq<Rect>)
    modifies band
    ensures forall r :: 0 <= r < band.Length0 ==> Row(band, r) == Suppressed(old(Row(band, r)))
    ensures keys == WhiteKeyRects(Boundaries(lines, band.Length1), frameHeight)
  {
    SuppressDoubledEdges(band);
    var boundaries := Boundaries(lines, band.Length1);
    keys := MergeBoundaries(boundaries, frameHeight);
  }
}
