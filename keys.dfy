/**
 * The Key entity of the key layout: a rectangle of the rectified keyboard
 * image with a note and an octave that labelling fills in later.
 */
module Keys {
  import opened Options
  import opened Notes

  /** A rectangle (x, y, width, height), as OpenCV's boundingRect gives it. */
  datatype Rect = Rect(x: int, y: int, width: int, height: int)

  /** A pixel position (x, y). */
  datatype Point = Point(x: int, y: int)

  /**
   * A key: its rectangle never changes after construction; note and octave
   * start unset and are written by labelling. Keys have no equality of their
   * own, so two keys are the same only when they are the same object.
   */
  class Key {
    const x: int
    const y: int
    const width: int
    const height: int
    var note: Option<Note>
    var octave: Option<int>

    constructor (r: Rect)
      ensures x == r.x && y == r.y && width == r.width && height == r.height
      ensures note == None && octave == None
    {
      x, y, width, height := r.x, r.y, r.width, r.height;
      note, octave := None, None;
    }

    /** `str(key)`: the note's pretty name and the octave, or `??`. */
    function ToString(): (s: string)
      reads this
      ensures s == "??" <==> note.None?
      ensures note.Some? ==> s == PrettyName(note.value) + OctaveText(octave)
    {
      PrettyNameSpelled(if note.Some? then note.value else A);
      KeyLabel(note, octave)
    }
  }

  predicate SortedByX(s: seq<Key>) {
    forall i, j :: 0 <= i < j < |s| ==> s[i].x <= s[j].x
  }

  predicate Distinct(s: seq<Key>) {
    forall i, j :: 0 <= i < j < |s| ==> s[i] != s[j]
  }

  /** Inserts k into a list sorted by x, after every key whose x is not larger. */
  function InsertByX(s: seq<Key>, k: Key): (r: seq<Key>)
    requires SortedByX(s)
    ensures SortedByX(r) && multiset(r) == multiset(s) + multiset{k}
  {
    if s == [] || s[|s| - 1].x <= k.x then s + [k]
    else
      var last := s[|s| - 1];
      var front := InsertByX(s[..|s| - 1], k);
      assert s[..|s| - 1] + [last] == s;
      InsertBelowLast(s, k, front);
      SortedAppend(front, last);
      assert multiset(front + [last]) == multiset(front) + multiset{last};
      front + [last]
  }

  lemma SortedAppend(s: seq<Key>, k: Key)
    requires SortedByX(s) && forall i :: 0 <= i < |s| ==> s[i].x <= k.x
    ensures SortedByX(s + [k])
  {
    var r := s + [k];
    forall i, j | 0 <= i < j < |r|
      ensures r[i].x <= r[j].x
    {
      assert r[i] == s[i];
    }
  }

  /** Inserting a key left of the last one keeps everything at or left of it. */
  lemma InsertBelowLast(s: seq<Key>, k: Key, front: seq<Key>)
    requires SortedByX(s) && |s| > 0 && k.x < s[|s| - 1].x
    requires multiset(front) == multiset(s[..|s| - 1]) + multiset{k}
    ensures forall i :: 0 <= i < |front| ==> front[i].x <= s[|s| - 1].x
  {
    forall i | 0 <= i < |front|
      ensures front[i].x <= s[|s| - 1].x
    {
      var e := front[i];
      assert e in multiset(s[..|s| - 1]) + multiset{k};
      if e != k {
        assert e in s[..|s| - 1];
        var m :| 0 <= m < |s| - 1 && s[m] == e;
      }
    }
  }

  /**
   * `list.sort(key=lambda k: k.x)`. Python's sort is stable; so is this
   * insertion sort, which keeps keys with equal x in their original order
   * (SortByXStable).
   */
  function SortByX(s: seq<Key>): (r: seq<Key>)
    ensures SortedByX(r) && multiset(r) == multiset(s) && |r| == |s|
  {
    if s == [] then []
    else
      assert s[..|s| - 1] + [s[|s| - 1]] == s;
      var r := InsertByX(SortByX(s[..|s| - 1]), s[|s| - 1]);
      assert |multiset(r)| == |multiset(s)|;
      r
  }

  /** The keys of s whose x is v, in their order in s. */
  function ByX(s: seq<Key>, v: int): seq<Key> {
    if s == [] then []
    else ByX(s[..|s| - 1], v) + (if s[|s| - 1].x == v then [s[|s| - 1]] else [])
  }

  /** Appending a key adds it to its own x's keys only. */
  lemma ByXAppend(s: seq<Key>, k: Key, v: int)
    ensures ByX(s + [k], v) == ByX(s, v) + (if k.x == v then [k] else [])
  {
    assert (s + [k])[..|s|] == s;
  }

  /** A key left of the last one is inserted into the list without it. */
  lemma InsertByXUnfold(s: seq<Key>, k: Key)
    requires SortedByX(s) && |s| > 0 && k.x < s[|s| - 1].x
    ensures SortedByX(s[..|s| - 1])
    ensures InsertByX(s, k) == InsertByX(s[..|s| - 1], k) + [s[|s| - 1]]
  {
  }

  /** Inserting k puts it after every key of s with the same x. */
  lemma {:induction false} InsertByXStable(s: seq<Key>, k: Key, v: int)
    requires SortedByX(s)
    ensures ByX(InsertByX(s, k), v) == ByX(s, v) + (if k.x == v then [k] else [])
    decreases |s|
  {
    if s == [] || s[|s| - 1].x <= k.x {
      ByXAppend(s, k, v);
    } else {
      var init, last := s[..|s| - 1], s[|s| - 1];
      InsertByXUnfold(s, k);
      InsertByXStable(init, k, v);
      ByXAppend(InsertByX(init, k), last, v);
      if k.x == v {
        assert last.x != v;
      }
    }
  }

  /**
   * The sort is stable: for every x, the keys at that x come out in the
   * order they had in the input.
   */
  lemma {:induction false} SortByXStable(s: seq<Key>, v: int)
    ensures ByX(SortByX(s), v) == ByX(s, v)
    decreases |s|
  {
    if s != [] {
      var front := s[..|s| - 1];
      SortByXStable(front, v);
      assert SortByX(s) == InsertByX(SortByX(front), s[|s| - 1]);
      InsertByXStable(SortByX(front), s[|s| - 1], v);
    }
  }

  /** Sorting keeps a list free of repeated keys. */
  lemma SortByXDistinct(s: seq<Key>)
    requires Distinct(s)
    ensures Distinct(SortByX(s))
  {
    DistinctCount(s);
    MultiplicityOneDistinct(SortByX(s));
  }

  /** Sorting keeps the keys of a list: a key is in the sorted list exactly when it is in the list. */
  lemma SortedKeys(s: seq<Key>, k: Key)
    ensures k in SortByX(s) <==> k in s
  {
    assert k in SortByX(s) <==> k in multiset(SortByX(s));
  }

  lemma DistinctCount(s: seq<Key>)
    requires Distinct(s)
    ensures forall k :: multiset(s)[k] <= 1
  {
    if s != [] {
      var t := s[..|s| - 1];
      assert s == t + [s[|s| - 1]];
      DistinctCount(t);
      assert s[|s| - 1] !in t;
    }
  }

  lemma MultiplicityOneDistinct(s: seq<Key>)
    requires forall k :: multiset(s)[k] <= 1
    ensures Distinct(s)
  {
    if s != [] {
      var t := s[..|s| - 1];
      assert s == t + [s[|s| - 1]];
      assert forall k :: multiset(t)[k] <= multiset(s)[k];
      MultiplicityOneDistinct(t);
      assert multiset(s)[s[|s| - 1]] == multiset(t)[s[|s| - 1]] + 1;
    }

  }
}
