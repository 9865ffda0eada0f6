/**
 * `KeysManager`: the black and white keys of the layout and `label_keys`,
 * which sorts them, names the black keys from their grouping, finds the A1
 * anchor and spreads notes and octaves out from it. The key objects are
 * updated in place; each step of `label_keys` is a method here whose
 * contract ties the new fields of the keys to the matching function of
 * module Labelling.
 */
module KeysManagement {
  import opened Options
  import opened Notes
  import opened Keys
  import opened Labelling

  /** The keys of the groups are among U. */
  predicate Within(gs: seq<seq<Key>>, U: set<Key>) {
    forall t, m :: 0 <= t < |gs| && 0 <= m < |gs[t]| ==> gs[t][m] in U
  }

  /** The note and octave fields of the keys of U are what l says. */
  ghost predicate Shows(U: set<Key>, l: Labels)
    reads U
  {
    forall k :: k in U ==> k.note == Get(l.notes, k) && k.octave == Get(l.octaves, k)
  }

  /** The note and octave fields of the keys of U, as label maps. */
  ghost function LabelsOf(U: set<Key>): (l: Labels)
    reads U
    ensures Shows(U, l)
  {
    Labels(map k | k in U :: k.note, map k | k in U :: k.octave)
  }

  // ---------------------------------------------------------------------
  // The loops of label_keys
  // ---------------------------------------------------------------------

  /** Lines 129-132: the x distance from each black key to the one before it. */
  method Distances(bs: seq<Key>) returns (ds: seq<int>)
    ensures ds == Gaps(bs)
  {
    ds := [];
    var i := 1;
    while i < |bs|
      invariant 1 <= i && |ds| == i - 1 <= |Gaps(bs)|
      invariant forall j :: 0 <= j < |ds| ==> ds[j] == Gaps(bs)[j]
    {
      ds := ds + [bs[i].x - bs[i - 1].x];
      i := i + 1;
    }
  }

  /**
   * Lines 135-141: the first key opens a group; each later key joins the
   * last group when its gap is below the mean, and opens a new one otherwise.
   */
  method GroupKeys(bs: seq<Key>, mean: real) returns (gs: seq<seq<Key>>)
    requires |bs| >= 1
    ensures gs == Groups(bs, mean)
  {
    gs := [[bs[0]]];
    var i := 1;
    while i < |bs|
      invariant 1 <= i <= |bs|
      invariant gs == GroupsUpTo(bs, mean, i)
    {
      var key, prev := bs[i], bs[i - 1];
      ghost var next := GroupsUpTo(bs, mean, i + 1);
      if ((key.x - prev.x) as real) < mean {
        assert Joins(bs, mean, i);
        gs := gs[..|gs| - 1] + [gs[|gs| - 1] + [key]];
      } else {
        assert !Joins(bs, mean, i);
        gs := gs + [[key]];
      }
      assert gs == next;
      i := i + 1;
    }
  }

  /** The keys of s are among U. */
  predicate AllIn(s: seq<Key>, U: set<Key>) {
    forall k :: k in s ==> k in U
  }

  /** The groups of a list whose keys are among U have their keys among U. */
  lemma GroupsWithin(bs: seq<Key>, mean: real, U: set<Key>)
    requires |bs| >= 1 && AllIn(bs, U)
    ensures Within(Groups(bs, mean), U)
  {
    GroupsFlatten(bs, mean, |bs|);
    assert bs[..|bs|] == bs;
    forall t, m | 0 <= t < |Groups(bs, mean)| && 0 <= m < |Groups(bs, mean)[t]|
      ensures Groups(bs, mean)[t][m] in U
    {
      InFlatten(Groups(bs, mean), t, m);
    }
  }

  // ---------------------------------------------------------------------
  // Field writes
  // ---------------------------------------------------------------------

  /** `key.note = n`: the labels of U change at key and nowhere else. */
  method SetNote(key: Key, n: Option<Note>, ghost U: set<Key>, ghost l: Labels)
    requires key in U && Shows(U, l)
    modifies key
    ensures Shows(U, Labels(l.notes[key := n], l.octaves))
  {
    key.note := n;
  }

  /** `key.octave = o`: from labels l, the keys of U come to show the labels after. */
  method SetOctave(key: Key, o: Option<int>, ghost U: set<Key>, ghost l: Labels, ghost after: Labels)
    requires key in U && Shows(U, l)
    requires after == Labels(l.notes, l.octaves[key := o])
    modifies key
    ensures Shows(U, after)
  {
    key.octave := o;
  }

  /** `key.note = n` then `key.octave = o`. */
  method SetLabel(key: Key, n: Option<Note>, o: Option<int>, ghost U: set<Key>, ghost l: Labels, ghost after: Labels)
    requires key in U && Shows(U, l)
    requires after == Labels(l.notes[key := n], l.octaves[key := o])
    modifies key
    ensures Shows(U, after)
  {
    key.note := n;
    key.octave := o;
  }

  /** Lines 143-151: pairs read C#, D# and triples F#, G#, A#. */
  method ApplyPatterns(gs: seq<seq<Key>>, ghost U: set<Key>, ghost l: Labels)
    requires Within(gs, U) && Shows(U, l)
    modifies U
    ensures Shows(U, Labels(Patterns(gs, l.notes), l.octaves))
  {
    var t := 0;
    while t < |gs|
      invariant 0 <= t <= |gs|
      invariant Shows(U, Labels(PatternsUpTo(gs, l.notes, t), l.octaves))
    {
      var group := gs[t];
      ghost var before := PatternsUpTo(gs, l.notes, t);
      if |group| == 2 {
        SetNote(group[0], Some(CSharp), U, Labels(before, l.octaves));
        SetNote(group[1], Some(DSharp), U, Labels(before[group[0] := Some(CSharp)], l.octaves));
      } else if |group| == 3 {
        SetNote(group[0], Some(FSharp), U, Labels(before, l.octaves));
        SetNote(group[1], Some(GSharp), U, Labels(before[group[0] := Some(FSharp)], l.octaves));
        SetNote(group[2], Some(ASharp), U, Labels(before[group[0] := Some(FSharp)][group[1] := Some(GSharp)], l.octaves));
      }
      t := t + 1;
    }
  }

  /**
   * Line 155-159 for group t: a single key takes a note from a neighbour
   * group; ok is false when `Note(...)` raises.
   */
  method InferOne(gs: seq<seq<Key>>, t: nat, ghost U: set<Key>, ghost l: Labels) returns (ok: bool)
    requires t < |gs| && NonEmptyGroups(gs) && Within(gs, U) && Shows(U, l)
    modifies U
    ensures ok == InferStep(gs, t, l.notes).Some?
    ensures ok ==> Shows(U, Labels(InferStep(gs, t, l.notes).value, l.octaves))
    ensures !ok ==> Shows(U, l)
  {
    ok := true;
    if |gs[t]| == 1 {
      var key := gs[t][0];
      if t > 0 && Last(gs[t - 1]).note.Some? {
        var moved := Shift(Last(gs[t - 1]).note.value, 2);
        if moved.None? {
          return false;
        }
        SetNote(key, moved, U, l);
      } else if t < |gs| - 1 && gs[t + 1][0].note.Some? {
        var moved := Shift(gs[t + 1][0].note.value, -2);
        if moved.None? {
          return false;
        }
        SetNote(key, moved, U, l);
      }
    }
  }

  /**
   * Lines 153-159: each single-key group takes a note from its neighbour
   * group. ok is false when `Note(...)` raises, which ends label_keys.
   */
  method InferSingles(gs: seq<seq<Key>>, ghost U: set<Key>, ghost l: Labels) returns (ok: bool)
    requires NonEmptyGroups(gs) && Within(gs, U) && Shows(U, l)
    modifies U
    ensures ok == Singles(gs, l.notes).ok
    ensures Shows(U, Labels(Singles(gs, l.notes).notes, l.octaves))
  {
    var t := 0;
    while t < |gs|
      invariant 0 <= t <= |gs|
      invariant SinglesUpTo(gs, l.notes, t).ok
      invariant Shows(U, Labels(SinglesUpTo(gs, l.notes, t).notes, l.octaves))
    {
      ghost var notes := SinglesUpTo(gs, l.notes, t).notes;
      ok := InferOne(gs, t, U, Labels(notes, l.octaves));
      if !ok {
        SinglesStayFailed(gs, l.notes, t + 1, |gs|);
        return;
      }
      t := t + 1;
    }
    ok := true;
  }

  /** How the anchor search ends when it breaks at a match at index i > 0. */
  lemma AnchorFoundAt(W: seq<Key>, B: seq<Key>, l: Labels, i: nat)
    requires 0 < i < |W| && Candidate(B, l.notes, W[i])
    requires forall i' :: 1 <= i' < i ==> !Candidate(B, l.notes, W[i'])
    ensures AnchorIndex(W, B, l.notes) == Some(i)
    ensures AnchorMarks(W, B, l) == Mark(if Candidate(B, l.notes, W[0]) then Mark(l, W[0]) else l, W[i])
  {
    if !Candidate(B, l.notes, W[0]) {
      assert FirstMatch(W, B, l.notes, 0) == FirstMatch(W, B, l.notes, 1);
    }
  }

  /** How the anchor search ends when the loop runs out of white keys. */
  lemma AnchorSearchExhausted(W: seq<Key>, B: seq<Key>, l: Labels)
    requires forall i' :: 1 <= i' < |W| ==> !Candidate(B, l.notes, W[i'])
    ensures AnchorIndex(W, B, l.notes) == if |W| > 0 && Candidate(B, l.notes, W[0]) then Some(0) else None
    ensures AnchorMarks(W, B, l) == if |W| > 0 && Candidate(B, l.notes, W[0]) then Mark(l, W[0]) else l
  {
    if |W| > 0 && Candidate(B, l.notes, W[0]) {
      assert FirstMatch(W, B, l.notes, 1).None?;
      assert Mark(Mark(l, W[0]), W[0]) == Mark(l, W[0]);
    } else if |W| > 0 {
      assert FirstMatch(W, B, l.notes, 0) == FirstMatch(W, B, l.notes, 1);
    }
  }

  /**
   * Lines 163-174: the first white key, in order, between a G#, A# pair of
   * consecutive black keys becomes A1; a match at index 0 does not stop
   * the search. The notes of the black keys are read from the keys, which
   * the search does not write because no key is both black and white.
   */
  method FindAnchor(W: seq<Key>, B: seq<Key>, ghost U: set<Key>, ghost l: Labels) returns (a1: Option<nat>)
    requires AllIn(W, U) && AllIn(B, U) && Apart(B, W) && Shows(U, l)
    modifies U
    ensures a1 == AnchorIndex(W, B, l.notes)
    ensures Shows(U, AnchorMarks(W, B, l))
  {
    a1 := None;
    var i := 0;
    while i < |W|
      invariant 0 <= i <= |W|
      invariant forall i' :: 1 <= i' < i ==> !Candidate(B, l.notes, W[i'])
      invariant a1 == if i > 0 && Candidate(B, l.notes, W[0]) then Some(0) else None
      invariant Shows(U, if a1.Some? then Mark(l, W[0]) else l)
    {
      ghost var cur := if a1.Some? then Mark(l, W[0]) else l;
      var key := W[i];
      var j := 0;
      var found := false;
      while j + 1 < |B|
        invariant 0 <= j && (j < |B| || B == [])
        invariant forall j' :: 0 <= j' < j && j' + 1 < |B| ==> !Brackets(B, l.notes, j', key)
        invariant Shows(U, cur)
        invariant !found
        decreases |B| - j
      {
        var blackLeft, blackRight := B[j], B[j + 1];
        assert blackLeft !in W && blackRight !in W;
        assert Get(cur.notes, blackLeft) == Get(l.notes, blackLeft) && Get(cur.notes, blackRight) == Get(l.notes, blackRight);
        if blackLeft.note == Some(GSharp) && blackRight.note == Some(ASharp) && blackLeft.x < key.x < blackRight.x {
          assert Brackets(B, l.notes, j, key);
          SetLabel(key, Some(A), Some(1), U, cur, Mark(cur, key));
          a1 := Some(i);
          found := true;
          break;
        }
        j := j + 1;
      }
      if found && i != 0 {
        AnchorFoundAt(W, B, l, i);
        return;
      }
      if !found {
        assert !Candidate(B, l.notes, key);
      }
      i := i + 1;
    }
    AnchorSearchExhausted(W, B, l);
  }

  lemma RightWalkStep(W: seq<Key>, a: nat, l: Labels, k: nat)
    requires a < k < |W|
    ensures RightWalk(W, a, l, k + 1)
         == Labels(RightWalk(W, a, l, k).notes[W[k] := Some(ScaleNote(k - a))], RightWalk(W, a, l, k).octaves[W[k] := Some(1 + (k - a) / 7)])
  {
  }

  lemma LeftWalkStep(W: seq<Key>, start: nat, l: Labels, j: nat)
    requires start < |W| && j < start + 1
    ensures LeftWalk(W, start, l, j + 1)
         == Labels(LeftWalk(W, start, l, j).notes[W[start - j] := Some(ScaleNote(-(j + 1)))],
                   LeftWalk(W, start, l, j).octaves[W[start - j] := Some(-((j + 1) / 7))])
  {
  }

  /** Lines 177-180: white key d places right of the anchor reads ScaleNote(d), octave 1 + d / 7. */
  method WalkRight(W: seq<Key>, a: nat, ghost U: set<Key>, ghost l: Labels)
    requires a < |W| && AllIn(W, U) && Shows(U, l)
    modifies U
    ensures Shows(U, RightWalk(W, a, l, |W|))
  {
    var k := a + 1;
    while k < |W|
      invariant a < k <= |W|
      invariant Shows(U, RightWalk(W, a, l, k))
    {
      RightWalkStep(W, a, l, k);
      SetLabel(W[k], Some(ScaleNote(k - a)), Some(1 + (k - a) / 7), U, RightWalk(W, a, l, k), RightWalk(W, a, l, k + 1));
      k := k + 1;
    }
  }

  /**
   * Lines 182-185: the backward slice `W[a - 1::-1]`; its d-th key reads
   * ScaleNote(-d), octave -(d / 7). An anchor at index 0 makes the slice
   * run over the whole list from its end.
   */
  method WalkLeft(W: seq<Key>, a: nat, ghost U: set<Key>, ghost l: Labels)
    requires a < |W| && AllIn(W, U) && Shows(U, l)
    modifies U
    ensures Shows(U, LeftWalk(W, LeftStart(|W|, a), l, LeftStart(|W|, a) + 1))
  {
    var start: nat := LeftStart(|W|, a);
    var j := 0;
    while j < start + 1
      invariant 0 <= j <= start + 1
      invariant Shows(U, LeftWalk(W, start, l, j))
    {
      LeftWalkStep(W, start, l, j);
      SetLabel(W[start - j], Some(ScaleNote(-(j + 1))), Some(-((j + 1) / 7)), U, LeftWalk(W, start, l, j), LeftWalk(W, start, l, j + 1));
      j := j + 1;
    }
  }

  /** Lines 191-193: black key d places right of A#1 gets octave 1 + d / 5. */
  method SpreadBlackRight(B: seq<Key>, p: nat, ghost U: set<Key>, ghost l: Labels)
    requires p < |B| && AllIn(B, U) && Shows(U, l)
    modifies U
    ensures Shows(U, Labels(l.notes, BlackRight(B, p, l.octaves, |B|)))
  {
    var i := p + 1;
    while i < |B|
      invariant p < i <= |B|
      invariant Shows(U, Labels(l.notes, BlackRight(B, p, l.octaves, i)))
    {
      var dist := i - p;
      SetOctave(B[i], Some(1 + dist / 5), U, Labels(l.notes, BlackRight(B, p, l.octaves, i)), Labels(l.notes, BlackRight(B, p, l.octaves, i + 1)));
      i := i + 1;
    }
  }

  /**
   * Lines 195-197: black key i of the backward slice from p - 1 gets octave
   * -((p - i) / 5); for p = 0 the slice is the whole list backwards.
   */
  method SpreadBlackLeft(B: seq<Key>, p: nat, ghost U: set<Key>, ghost l: Labels)
    requires p < |B| && AllIn(B, U) && Shows(U, l)
    modifies U
    ensures Shows(U, Labels(l.notes, BlackLeft(B, p, LeftStart(|B|, p), l.octaves, LeftStart(|B|, p) + 1)))
  {
    var start: nat := LeftStart(|B|, p);
    var j := 0;
    while j < start + 1
      invariant 0 <= j <= start + 1
      invariant Shows(U, Labels(l.notes, BlackLeft(B, p, start, l.octaves, j)))
    {
      var i := start - j;
      var dist := p - i;
      SetOctave(B[i], Some(-(dist / 5)), U, Labels(l.notes, BlackLeft(B, p, start, l.octaves, j)), Labels(l.notes, BlackLeft(B, p, start, l.octaves, j + 1)));
      j := j + 1;
    }
  }

  /**
   * The key lists of the layout. The rectangles come from OpenCV (the
   * black-key contours and the white-key boundaries); here they are inputs.
   */
  class KeysManager {
    var blackKeys: seq<Key>
    var whiteKeys: seq<Key>
    /** Every key object of the layout. */
    ghost var Repr: set<Key>

    /** Each key object occurs once, as a black key or as a white key. */
    ghost predicate Valid()
      reads this
    {
      && Distinct(blackKeys) && Distinct(whiteKeys) && Apart(blackKeys, whiteKeys)
      && AllIn(blackKeys, Repr) && AllIn(whiteKeys, Repr)
      && forall k :: k in Repr ==> k in blackKeys || k in whiteKeys
    }

    /** Lines 44-61 without OpenCV: one fresh, unlabelled key per rectangle. */
    constructor (blackRects: seq<Rect>, whiteRects: seq<Rect>)
      ensures Valid() && fresh(Repr)
      ensures |blackKeys| == |blackRects| && |whiteKeys| == |whiteRects|
      ensures forall i :: 0 <= i < |blackKeys| ==> IsKeyOf(blackKeys[i], blackRects[i])
      ensures forall i :: 0 <= i < |whiteKeys| ==> IsKeyOf(whiteKeys[i], whiteRects[i])
    {
      var bs := MakeKeys(blackRects);
      var ws := MakeKeys(whiteRects);
      blackKeys, whiteKeys := bs, ws;
      Repr := set k | k in bs + ws;
    }

    /**
     * `label_keys`, for any labels l0 that the keys show now: the key lists
     * end up as Label says (both sorted by x, or the white list unsorted
     * when the inference raises) and every key's note and octave are the
     * labels Label computes. ok is false exactly when the source raises:
     * `Note(...)` on a value between two members, or `min` with no black
     * key right of the anchor.
     */
    method LabelKeys(ghost l0: Labels) returns (ok: bool)
      requires Valid() && |blackKeys| >= 2 && Shows(Repr, l0)
      modifies this, Repr
      ensures var out := Label(old(blackKeys), old(whiteKeys), l0);
        && ok == out.ok && blackKeys == out.blacks && whiteKeys == out.whites
        && Shows(Repr, out.labels)
      ensures Valid() && Repr == old(Repr)
    {
      var B, W;
      B, W, ok := LabelLists(blackKeys, whiteKeys, Repr, l0);
      SortKeepsLayout(blackKeys, whiteKeys, B, W, Repr);
      blackKeys, whiteKeys := B, W;
    }
  }

  /**
   * label_keys on the key lists B0 and W0, whose keys are among U and show
   * the labels l0: the lists it ends with, the keys' new labels, and
   * whether it ran to the end.
   */
  method LabelLists(B0: seq<Key>, W0: seq<Key>, ghost U: set<Key>, ghost l0: Labels) returns (B: seq<Key>, W: seq<Key>, ok: bool)
    requires |B0| >= 2 && AllIn(B0, U) && AllIn(W0, U) && Apart(B0, W0) && Shows(U, l0)
    modifies U
    ensures var out := Label(B0, W0, l0);
      && ok == out.ok && B == out.blacks && W == out.whites && Shows(U, out.labels)
    ensures B == SortByX(B0) && (W == W0 || W == SortByX(W0))
  {
    B := SortByX(B0);
    SortedAllIn(B0, U);
    SortedAllIn(W0, U);
    SortedApart(B0, W0);
    ok := BlackNoteKeys(B, U, l0);
    if !ok {
      LabelUnfoldsRaised(B0, W0, l0);
      return B, W0, false;
    }
    LabelUnfoldsPlaced(B0, W0, l0);
    W := SortByX(W0);
    ok := PlaceKeys(B, W, U, Labels(InferenceOf(B0, l0).notes, l0.octaves));
  }

  /**
   * Lines 129-159 on the sorted black keys: the gaps, the groups, the
   * pattern notes and the inferred notes.
   */
  method BlackNoteKeys(B: seq<Key>, ghost U: set<Key>, ghost l: Labels) returns (ok: bool)
    requires |B| >= 2 && AllIn(B, U) && Shows(U, l)
    modifies U
    ensures var inf := Singles(BlackGroups(B), Patterns(BlackGroups(B), l.notes));
      ok == inf.ok && Shows(U, Labels(inf.notes, l.octaves))
  {
    var distances := Distances(B);
    var meanDist := Mean(distances);
    var gs := GroupKeys(B, meanDist);
    GroupsWithin(B, meanDist, U);
    ApplyPatterns(gs, U, l);
    ok := InferSingles(gs, U, Labels(Patterns(gs, l.notes), l.octaves));
  }

  /** Lines 161-197 after the white keys are sorted: Place on the key objects. */
  method PlaceKeys(B: seq<Key>, W: seq<Key>, ghost U: set<Key>, ghost l: Labels) returns (ok: bool)
    requires AllIn(B, U) && AllIn(W, U) && Apart(B, W) && Shows(U, l)
    modifies U
    ensures ok == Place(B, W, l).ok && Shows(U, Place(B, W, l).labels)
  {
    var a1 := FindAnchor(W, B, U, l);
    if a1.None? {
      return true;
    }
    ok := SpreadKeys(B, W, a1.value, U, AnchorMarks(W, B, l));
  }

  /** Lines 176-197: Spread on the key objects. */
  method SpreadKeys(B: seq<Key>, W: seq<Key>, a: nat, ghost U: set<Key>, ghost l: Labels) returns (ok: bool)
    requires a < |W| && AllIn(B, U) && AllIn(W, U) && Shows(U, l)
    modifies U
    ensures ok == Spread(B, W, a, l).ok && Shows(U, Spread(B, W, a, l).labels)
  {
    WalkRight(W, a, U, l);
    WalkLeft(W, a, U, RightWalk(W, a, l, |W|));
    ghost var l4 := Walks(W, a, l);
    var nearest := NearestRight(B, W[a].x, 0, None);
    if nearest.None? {
      SpreadNotFound(B, W, a, l);
      return false;
    }
    var aSharp1 := B[nearest.value];
    SetOctave(aSharp1, Some(1), U, l4, Labels(l4.notes, l4.octaves[aSharp1 := Some(1)]));
    var p := IndexOf(B, aSharp1);
    SpreadBlackRight(B, p, U, Labels(l4.notes, l4.octaves[aSharp1 := Some(1)]));
    ghost var o5 := BlackRight(B, p, l4.octaves[aSharp1 := Some(1)], |B|);
    SpreadBlackLeft(B, p, U, Labels(l4.notes, o5));
    SpreadFound(B, W, a, l, nearest.value, l4, p, o5);
    ok := true;
  }

  /** Spread when `min` finds the black key B[p0], with p its first index. */
  lemma SpreadFound(B: seq<Key>, W: seq<Key>, a: nat, l: Labels, p0: nat, l4: Labels, p: nat, o5: OctaveMap)
    requires a < |W| && NearestRight(B, W[a].x, 0, None) == Some(p0)
    requires l4 == Walks(W, a, l) && p == IndexOf(B, B[p0])
    requires o5 == BlackRight(B, p, l4.octaves[B[p0] := Some(1)], |B|)
    ensures Spread(B, W, a, l) == Outcome(B, W, Labels(l4.notes, BlackLeft(B, p, LeftStart(|B|, p), o5, LeftStart(|B|, p) + 1)), true)
  {
  }

  /** Spread when `min` finds nothing. */
  lemma SpreadNotFound(B: seq<Key>, W: seq<Key>, a: nat, l: Labels)
    requires a < |W| && NearestRight(B, W[a].x, 0, None).None?
    ensures Spread(B, W, a, l) == Outcome(B, W, Walks(W, a, l), false)
  {
  }

  predicate IsKeyOf(k: Key, r: Rect) reads k {
    k.x == r.x && k.y == r.y && k.width == r.width && k.height == r.height && k.note.None? && k.octave.None?
  }

  /** One fresh, unlabelled key per rectangle, in order. */
  method MakeKeys(rects: seq<Rect>) returns (ks: seq<Key>)
    ensures |ks| == |rects| && Distinct(ks)
    ensures forall i :: 0 <= i < |ks| ==> fresh(ks[i]) && IsKeyOf(ks[i], rects[i])
  {
    ks := [];
    var i := 0;
    while i < |rects|
      invariant 0 <= i <= |rects| && |ks| == i && Distinct(ks)
      invariant forall m :: 0 <= m < i ==> fresh(ks[m]) && IsKeyOf(ks[m], rects[m])
    {
      var k := new Key(rects[i]);
      ks := ks + [k];
      i := i + 1;
    }
  }

  /** The key lists that sorting gives keep the layout's keys and their uniqueness. */
  lemma SortKeepsLayout(B0: seq<Key>, W0: seq<Key>, B: seq<Key>, W: seq<Key>, U: set<Key>)
    requires Distinct(B0) && Distinct(W0) && Apart(B0, W0)
    requires AllIn(B0, U) && AllIn(W0, U) && forall k :: k in U ==> k in B0 || k in W0
    requires B == SortByX(B0) && (W == W0 || W == SortByX(W0))
    ensures Distinct(B) && Distinct(W) && Apart(B, W)
    ensures AllIn(B, U) && AllIn(W, U) && forall k :: k in U ==> k in B || k in W
  {
    SortByXDistinct(B0);
    SortByXDistinct(W0);
    forall k ensures k in B <==> k in B0 {
      SortedKeys(B0, k);
    }
    forall k ensures k in W <==> k in W0 {
      SortedKeys(W0, k);
    }
  }

  lemma SortedAllIn(s: seq<Key>, U: set<Key>)
    requires AllIn(s, U)
    ensures AllIn(SortByX(s), U)
  {
    forall k | k in SortByX(s) ensures k in U {
      SortedKeys(s, k);
    }
  }

  lemma SortedApart(B: seq<Key>, W: seq<Key>)
    requires Apart(B, W)
    ensures Apart(SortByX(B), SortByX(W))
  {
    forall k | k in SortByX(B) ensures k !in SortByX(W) {
      SortedKeys(B, k);
      SortedKeys(W, k);
    }
  }
}
