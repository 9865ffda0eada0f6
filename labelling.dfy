/**
 * What `KeysManager.label_keys` computes, as functions over the notes and
 * octaves of the keys. The state is a pair of maps from key objects to their
 * `note` and `octave` fields; each function below performs one step of the
 * source on those maps, in the source's order, and the lemmas state the
 * labelling that comes out.
 */
module Labelling {
  import opened Options
  import opened Notes
  import opened Keys

  type NoteMap = map<Key, Option<Note>>
  type OctaveMap = map<Key, Option<int>>

  /** The note and octave fields of every key. */
  datatype Labels = Labels(notes: NoteMap, octaves: OctaveMap)

  /** The value a label map holds for k; a key outside the map has none. */
  function Get<V>(m: map<Key, Option<V>>, k: Key): Option<V> {
    if k in m then m[k] else None
  }

  // ---------------------------------------------------------------------
  // Gaps and their mean
  // ---------------------------------------------------------------------

  /** The x distances between neighbouring keys of a list. */
  function Gaps(bs: seq<Key>): (ds: seq<int>)
    ensures |ds| == if bs == [] then 0 else |bs| - 1
    ensures forall i :: 0 <= i < |ds| ==> ds[i] == bs[i + 1].x - bs[i].x
  {
    if |bs| < 2 then [] else Gaps(bs[..|bs| - 1]) + [bs[|bs| - 1].x - bs[|bs| - 2].x]
  }

  function Sum(ds: seq<int>): int {
    if ds == [] then 0 else Sum(ds[..|ds| - 1]) + ds[|ds| - 1]
  }

  /** The exact mean of a non-empty list of gaps. */
  function Mean(ds: seq<int>): (m: real)
    requires |ds| > 0
    ensures m * (|ds| as real) == Sum(ds) as real
  {
    (Sum(ds) as real) / (|ds| as real)
  }

  /** The gaps of a list add up to the distance from its first key to its last. */
  lemma {:induction false} GapsTelescope(bs: seq<Key>)
    requires |bs| > 0
    ensures Sum(Gaps(bs)) == bs[|bs| - 1].x - bs[0].x
  {
    if |bs| >= 2 {
      var front := bs[..|bs| - 1];
      GapsTelescope(front);
      assert Gaps(bs)[..|Gaps(bs)| - 1] == Gaps(front);
    }
  }

  // ---------------------------------------------------------------------
  // Grouping
  // ---------------------------------------------------------------------

  /** The gap from key a to key b is below the mean. */
  predicate Close(a: Key, b: Key, mean: real) {
    ((b.x - a.x) as real) < mean
  }

  /** The gap in front of key i is below the mean: key i joins the group before it. */
  predicate Joins(bs: seq<Key>, mean: real, i: nat)
    requires 0 < i < |bs|
  {
    Close(bs[i - 1], bs[i], mean)
  }

  function Last(g: seq<Key>): Key
    requires |g| > 0
  {
    g[|g| - 1]
  }

  predicate NonEmptyGroups(gs: seq<seq<Key>>) {
    forall t :: 0 <= t < |gs| ==> |gs[t]| > 0
  }

  /**
   * The groups built from the first n keys: the first key opens a group,
   * and each later key joins the last group when the gap in front of it is
   * below the mean and opens a new group otherwise.
   */
  function GroupsUpTo(bs: seq<Key>, mean: real, n: nat): (gs: seq<seq<Key>>)
    requires 1 <= n <= |bs|
    ensures |gs| >= 1 && NonEmptyGroups(gs)
    ensures Last(gs[|gs| - 1]) == bs[n - 1]
  {
    if n == 1 then [[bs[0]]]
    else
      var gs := GroupsUpTo(bs, mean, n - 1);
      if Joins(bs, mean, n - 1) then gs[..|gs| - 1] + [gs[|gs| - 1] + [bs[n - 1]]]
      else gs + [[bs[n - 1]]]
  }

  function Groups(bs: seq<Key>, mean: real): (gs: seq<seq<Key>>)
    requires |bs| >= 1
  {
    GroupsUpTo(bs, mean, |bs|)
  }

  function Flatten(gs: seq<seq<Key>>): seq<Key> {
    if gs == [] then [] else Flatten(gs[..|gs| - 1]) + gs[|gs| - 1]
  }

  lemma FlattenAppend(gs: seq<seq<Key>>, g: seq<Key>)
    ensures Flatten(gs + [g]) == Flatten(gs) + g
  {
    assert (gs + [g])[..|gs|] == gs;
  }

  lemma FlattenSingle(k: Key)
    ensures Flatten([[k]]) == [k]
  {
    var none: seq<seq<Key>> := [];
    assert [[k]] == none + [[k]];
    FlattenAppend(none, [k]);
  }

  lemma FlattenExtendLast(gs: seq<seq<Key>>, x: Key)
    requires |gs| > 0
    ensures Flatten(gs[..|gs| - 1] + [gs[|gs| - 1] + [x]]) == Flatten(gs) + [x]
  {
    var k := |gs| - 1;
    FlattenAppend(gs[..k], gs[k] + [x]);
    assert gs[..k] + [gs[k]] == gs;
    FlattenAppend(gs[..k], gs[k]);
  }

  /** Adding key n - 1 to the groups adds it to their concatenation. */
  lemma GroupsFlattenStep(bs: seq<Key>, mean: real, n: nat)
    requires 2 <= n <= |bs| && Flatten(GroupsUpTo(bs, mean, n - 1)) == bs[..n - 1]
    ensures Flatten(GroupsUpTo(bs, mean, n)) == bs[..n]
  {
    assert bs[..n] == bs[..n - 1] + [bs[n - 1]];
    var gs := GroupsUpTo(bs, mean, n - 1);
    if Joins(bs, mean, n - 1) {
      assert GroupsUpTo(bs, mean, n) == gs[..|gs| - 1] + [gs[|gs| - 1] + [bs[n - 1]]];
      FlattenExtendLast(gs, bs[n - 1]);
    } else {
      assert GroupsUpTo(bs, mean, n) == gs + [[bs[n - 1]]];
      FlattenAppend(gs, [bs[n - 1]]);
    }
  }

  lemma GroupsFlattenFirst(bs: seq<Key>, mean: real)
    requires 1 <= |bs|
    ensures Flatten(GroupsUpTo(bs, mean, 1)) == bs[..1]
  {
    FlattenSingle(bs[0]);
    assert bs[..1] == [bs[0]];
  }

  /** The groups concatenate back to the list they were built from. */
  lemma {:induction false} GroupsFlatten(bs: seq<Key>, mean: real, n: nat)
    requires 1 <= n <= |bs|
    ensures Flatten(GroupsUpTo(bs, mean, n)) == bs[..n]
  {
    if n == 1 {
      GroupsFlattenFirst(bs, mean);
    } else {
      GroupsFlatten(bs, mean, n - 1);
      GroupsFlattenStep(bs, mean, n);
    }
  }

  /** Inside every group, each gap is below the mean. */
  predicate GapsInsideBelow(gs: seq<seq<Key>>, mean: real) {
    forall t, m :: 0 <= t < |gs| && 0 < m < |gs[t]| ==> Close(gs[t][m - 1], gs[t][m], mean)
  }

  /** Between neighbouring groups, the gap is at least the mean. */
  predicate GapsBetweenNotBelow(gs: seq<seq<Key>>, mean: real)
    requires NonEmptyGroups(gs)
  {
    forall t :: 0 < t < |gs| ==> !Close(Last(gs[t - 1]), gs[t][0], mean)
  }

  /** Every gap inside a group is below the mean. */
  lemma {:induction false} GroupsGapsInside(bs: seq<Key>, mean: real, n: nat)
    requires 1 <= n <= |bs|
    ensures GapsInsideBelow(GroupsUpTo(bs, mean, n), mean)
  {
    if n > 1 {
      var gs := GroupsUpTo(bs, mean, n - 1);
      GroupsGapsInside(bs, mean, n - 1);
      var k := |gs| - 1;
      var r: seq<seq<Key>> := GroupsUpTo(bs, mean, n);
      if Joins(bs, mean, n - 1) {
        assert r == gs[..k] + [gs[k] + [bs[n - 1]]];
        forall t, m | 0 <= t < |r| && 0 < m < |r[t]|
          ensures Close(r[t][m - 1], r[t][m], mean)
        {
          if t < k {
            assert r[t] == gs[t];
          } else if m < |gs[k]| {
            assert r[t][m] == gs[k][m] && r[t][m - 1] == gs[k][m - 1];
          } else {
            assert r[t][m] == bs[n - 1] && r[t][m - 1] == Last(gs[k]) == bs[n - 2];
          }
        }
      } else {
        assert r == gs + [[bs[n - 1]]];
        forall t, m | 0 <= t < |r| && 0 < m < |r[t]|
          ensures Close(r[t][m - 1], r[t][m], mean)
        {
          assert t < |gs| && r[t] == gs[t];
        }
      }
    }
  }

  /** Every gap between two neighbouring groups is at least the mean. */
  lemma {:induction false} GroupsGapsBetween(bs: seq<Key>, mean: real, n: nat)
    requires 1 <= n <= |bs|
    ensures GapsBetweenNotBelow(GroupsUpTo(bs, mean, n), mean)
  {
    if n > 1 {
      var gs := GroupsUpTo(bs, mean, n - 1);
      GroupsGapsBetween(bs, mean, n - 1);
      var k := |gs| - 1;
      var r: seq<seq<Key>> := GroupsUpTo(bs, mean, n);
      if Joins(bs, mean, n - 1) {
        assert r == gs[..k] + [gs[k] + [bs[n - 1]]];
        forall t | 0 < t < |r|
          ensures !Close(Last(r[t - 1]), r[t][0], mean)
        {
          assert r[t - 1] == gs[t - 1];
          if t < k {
            assert r[t] == gs[t];
          } else {
            assert r[t][0] == gs[k][0];
          }
        }
      } else {
        assert r == gs + [[bs[n - 1]]];
        forall t | 0 < t < |r|
          ensures !Close(Last(r[t - 1]), r[t][0], mean)
        {
          assert r[t - 1] == gs[t - 1];
          if t < |gs| {
            assert r[t] == gs[t];
          } else {
            assert r[t][0] == bs[n - 1] && Last(gs[t - 1]) == bs[n - 2];
          }
        }
      }
    }
  }

  /** The keys of all groups are pairwise different objects. */
  predicate DistinctGroups(gs: seq<seq<Key>>) {
    forall t, m, t', m' ::
      0 <= t < |gs| && 0 <= m < |gs[t]| && 0 <= t' < |gs| && 0 <= m' < |gs[t']| && (t, m) != (t', m')
      ==> gs[t][m] != gs[t'][m']
  }

  lemma {:induction false} InFlatten(gs: seq<seq<Key>>, t: nat, m: nat)
    requires t < |gs| && m < |gs[t]|
    ensures gs[t][m] in Flatten(gs)
  {
    var k := |gs| - 1;
    assert Flatten(gs) == Flatten(gs[..k]) + gs[k];
    if t < k {
      InFlatten(gs[..k], t, m);
    } else {
      assert Flatten(gs)[|Flatten(gs[..k])| + m] == gs[k][m];
    }
  }

  /** A concatenation without repeated keys comes from groups without repeated keys. */
  lemma {:induction false} FlattenDistinct(gs: seq<seq<Key>>)
    requires Distinct(Flatten(gs))
    ensures DistinctGroups(gs)
  {
    if gs != [] {
      var k := |gs| - 1;
      var front, last := Flatten(gs[..k]), gs[k];
      assert Flatten(gs) == front + last;
      forall i, j | 0 <= i < j < |front|
        ensures front[i] != front[j]
      {
        assert Flatten(gs)[i] == front[i] && Flatten(gs)[j] == front[j];
      }
      FlattenDistinct(gs[..k]);
      forall t, m, t', m' |
        0 <= t < |gs| && 0 <= m < |gs[t]| && 0 <= t' < |gs| && 0 <= m' < |gs[t']| && (t, m) != (t', m')
        ensures gs[t][m] != gs[t'][m']
      {
        if t < k && t' < k {
          assert gs[t] == gs[..k][t] && gs[t'] == gs[..k][t'];
        } else if t == k && t' == k {
          assert Flatten(gs)[|front| + m] == gs[t][m] && Flatten(gs)[|front| + m'] == gs[t'][m'];
        } else if t < k {
          InFlatten(gs[..k], t, m);
          assert gs[t] == gs[..k][t];
          var i :| 0 <= i < |front| && front[i] == gs[t][m];
          assert Flatten(gs)[i] == gs[t][m] && Flatten(gs)[|front| + m'] == gs[t'][m'];
        } else {
          InFlatten(gs[..k], t', m');
          assert gs[t'] == gs[..k][t'];
          var i :| 0 <= i < |front| && front[i] == gs[t'][m'];
          assert Flatten(gs)[i] == gs[t'][m'] && Flatten(gs)[|front| + m] == gs[t][m];
        }
      }
    }
  }

  /**
   * The grouping of a list without repeated keys: the groups concatenate
   * back to it, no group is empty, a gap inside a group is below the mean,
   * a gap between groups is not, and no key is in two places.
   */
  lemma GroupsShape(bs: seq<Key>, mean: real)
    requires |bs| >= 1 && Distinct(bs)
    ensures var gs := Groups(bs, mean);
      && Flatten(gs) == bs && NonEmptyGroups(gs)
      && GapsInsideBelow(gs, mean) && GapsBetweenNotBelow(gs, mean)
      && DistinctGroups(gs)
  {
    GroupsFlatten(bs, mean, |bs|);
    GroupsGapsInside(bs, mean, |bs|);
    GroupsGapsBetween(bs, mean, |bs|);
    assert bs[..|bs|] == bs;
    FlattenDistinct(Groups(bs, mean));
  }

  // ---------------------------------------------------------------------
  // Notes of two- and three-key groups
  // ---------------------------------------------------------------------

  /** The note a pattern gives to place m of a group of the given size, if any. */
  function PatternNote(size: nat, m: nat): Option<Note> {
    if size == 2 && m < 2 then Some([CSharp, DSharp][m])
    else if size == 3 && m < 3 then Some([FSharp, GSharp, ASharp][m])
    else None
  }

  /** One pass of the pattern loop: C#, D# for a pair; F#, G#, A# for a triple. */
  function ApplyPattern(g: seq<Key>, notes: NoteMap): NoteMap {
    if |g| == 2 then notes[g[0] := Some(CSharp)][g[1] := Some(DSharp)]
    else if |g| == 3 then notes[g[0] := Some(FSharp)][g[1] := Some(GSharp)][g[2] := Some(ASharp)]
    else notes
  }

  /** The notes after the pattern loop has seen the first t groups. */
  function PatternsUpTo(gs: seq<seq<Key>>, notes: NoteMap, t: nat): NoteMap
    requires t <= |gs|
  {
    if t == 0 then notes else ApplyPattern(gs[t - 1], PatternsUpTo(gs, notes, t - 1))
  }

  function Patterns(gs: seq<seq<Key>>, notes: NoteMap): NoteMap {
    PatternsUpTo(gs, notes, |gs|)
  }

  /** k is one of the keys of the first t groups. */
  predicate InGroups(gs: seq<seq<Key>>, t: nat, k: Key)
    requires t <= |gs|
  {
    exists t', m :: 0 <= t' < t && 0 <= m < |gs[t']| && gs[t'][m] == k
  }

  /** A pattern pass writes only the keys of its own group. */
  lemma ApplyPatternFrame(g: seq<Key>, notes: NoteMap, k: Key)
    requires forall m :: 0 <= m < |g| ==> g[m] != k
    ensures Get(ApplyPattern(g, notes), k) == Get(notes, k)
  {
  }

  /** A pattern pass gives place m of a group of distinct keys its pattern note. */
  lemma ApplyPatternPlace(g: seq<Key>, notes: NoteMap, m: nat)
    requires m < |g| && forall i, j :: 0 <= i < j < |g| ==> g[i] != g[j]
    ensures Get(ApplyPattern(g, notes), g[m]) == if |g| == 2 || |g| == 3 then PatternNote(|g|, m) else Get(notes, g[m])
  {
  }

  /**
   * The pattern loop in closed form, for groups without repeated keys: in a
   * group of two the keys read C#, D#; in a group of three F#, G#, A#; keys
   * of other groups and keys outside the groups keep their note.
   */
  lemma {:induction false} PatternsClosedForm(gs: seq<seq<Key>>, notes: NoteMap, t: nat)
    requires t <= |gs| && DistinctGroups(gs)
    ensures forall t', m :: 0 <= t' < t && 0 <= m < |gs[t']| ==>
      Get(PatternsUpTo(gs, notes, t), gs[t'][m]) ==
        if |gs[t']| == 2 || |gs[t']| == 3 then PatternNote(|gs[t']|, m) else Get(notes, gs[t'][m])
    ensures forall k :: !InGroups(gs, t, k) ==> Get(PatternsUpTo(gs, notes, t), k) == Get(notes, k)
  {
    if t > 0 {
      PatternsClosedForm(gs, notes, t - 1);
      var before := PatternsUpTo(gs, notes, t - 1);
      var g := gs[t - 1];
      forall t', m | 0 <= t' < t && 0 <= m < |gs[t']|
        ensures Get(PatternsUpTo(gs, notes, t), gs[t'][m]) ==
          if |gs[t']| == 2 || |gs[t']| == 3 then PatternNote(|gs[t']|, m) else Get(notes, gs[t'][m])
      {
        if t' == t - 1 {
          ApplyPatternPlace(g, before, m);
          if !(|g| == 2 || |g| == 3) {
            assert !InGroups(gs, t - 1, gs[t'][m]);
          }
        } else {
          ApplyPatternFrame(g, before, gs[t'][m]);
        }
      }
      forall k | !InGroups(gs, t, k)
        ensures Get(PatternsUpTo(gs, notes, t), k) == Get(notes, k)
      {
        assert !InGroups(gs, t - 1, k);
        ApplyPatternFrame(g, before, k);
      }
    }
  }

  // ---------------------------------------------------------------------
  // Notes of single-key groups
  // ---------------------------------------------------------------------

  /** The notes after some passes of the inference loop; ok is false once `Note(...)` has raised. */
  datatype Inference = Inference(notes: NoteMap, ok: bool)

  /**
   * One pass of the inference loop at group i. A single key takes the
   * previous group's last note moved up two steps when that note is set,
   * else the next group's first note moved down two steps when that one is
   * set, else it stays as it is. A move that lands on no member makes
   * `Note(...)` raise: the result is None.
   */
  function InferStep(gs: seq<seq<Key>>, i: nat, notes: NoteMap): Option<NoteMap>
    requires i < |gs| && NonEmptyGroups(gs)
  {
    if |gs[i]| != 1 then Some(notes)
    else
      var key := gs[i][0];
      if i > 0 && Get(notes, Last(gs[i - 1])).Some? then
        var moved := Shift(Get(notes, Last(gs[i - 1])).value, 2);
        if moved.None? then None else Some(notes[key := moved])
      else if i < |gs| - 1 && Get(notes, gs[i + 1][0]).Some? then
        var moved := Shift(Get(notes, gs[i + 1][0]).value, -2);
        if moved.None? then None else Some(notes[key := moved])
      else Some(notes)
  }

  /** The inference loop over the first t groups; it stops at the first failure. */
  function SinglesUpTo(gs: seq<seq<Key>>, notes: NoteMap, t: nat): Inference
    requires t <= |gs| && NonEmptyGroups(gs)
  {
    if t == 0 then Inference(notes, true)
    else
      var r := SinglesUpTo(gs, notes, t - 1);
      if !r.ok then r
      else match InferStep(gs, t - 1, r.notes)
        case None => Inference(r.notes, false)
        case Some(next) => Inference(next, true)
  }

  function Singles(gs: seq<seq<Key>>, notes: NoteMap): Inference
    requires NonEmptyGroups(gs)
  {
    SinglesUpTo(gs, notes, |gs|)
  }

  /** k is the key of a single-key group among the first t groups. */
  predicate SingleBefore(gs: seq<seq<Key>>, t: nat, k: Key)
    requires t <= |gs| && NonEmptyGroups(gs)
  {
    exists j :: 0 <= j < t && |gs[j]| == 1 && gs[j][0] == k
  }

  /**
   * The note inference gives the single key of group i, in terms of the
   * notes after the loop (`after`) and before it (`before`): the previous
   * group's last key is final by the time group i is reached, and the next
   * group's first key has not been reached yet.
   */
  function Inferred(gs: seq<seq<Key>>, after: NoteMap, before: NoteMap, i: nat): Option<Note>
    requires i < |gs| && NonEmptyGroups(gs)
  {
    if i > 0 && Get(after, Last(gs[i - 1])).Some? then Shift(Get(after, Last(gs[i - 1])).value, 2)
    else if i < |gs| - 1 && Get(before, gs[i + 1][0]).Some? then Shift(Get(before, gs[i + 1][0]).value, -2)
    else Get(before, gs[i][0])
  }

  /** A pass of the inference loop writes only the key of its own group. */
  lemma InferStepFrame(gs: seq<seq<Key>>, i: nat, notes: NoteMap, k: Key)
    requires i < |gs| && NonEmptyGroups(gs)
    requires InferStep(gs, i, notes).Some? && (|gs[i]| != 1 || k != gs[i][0])
    ensures Get(InferStep(gs, i, notes).value, k) == Get(notes, k)
  {
  }

  /**
   * The inference loop in closed form, for groups without repeated keys:
   * only the keys of single-key groups change, and when no `Note(...)`
   * raised each of them holds the note `Inferred` describes.
   */
  lemma {:induction false} SinglesClosedForm(gs: seq<seq<Key>>, notes: NoteMap, t: nat)
    requires t <= |gs| && NonEmptyGroups(gs) && DistinctGroups(gs)
    ensures var r := SinglesUpTo(gs, notes, t);
      forall k :: !SingleBefore(gs, t, k) ==> Get(r.notes, k) == Get(notes, k)
    ensures var r := SinglesUpTo(gs, notes, t);
      r.ok ==> forall i :: 0 <= i < t && |gs[i]| == 1 ==> Get(r.notes, gs[i][0]) == Inferred(gs, r.notes, notes, i)
  {
    if t > 0 {
      SinglesClosedForm(gs, notes, t - 1);
      var prev := SinglesUpTo(gs, notes, t - 1);
      var r := SinglesUpTo(gs, notes, t);
      if prev.ok && InferStep(gs, t - 1, prev.notes).Some? {
        assert r.notes == InferStep(gs, t - 1, prev.notes).value;
        SinglesFrameStep(gs, notes, prev.notes, t);
        SinglesInferredStep(gs, notes, prev.notes, t);
      }
    }
  }

  /** A pass of the inference loop keeps the keys outside the single-key groups seen so far. */
  lemma SinglesFrameStep(gs: seq<seq<Key>>, notes: NoteMap, prev: NoteMap, t: nat)
    requires 0 < t <= |gs| && NonEmptyGroups(gs)
    requires InferStep(gs, t - 1, prev).Some?
    requires forall k :: !SingleBefore(gs, t - 1, k) ==> Get(prev, k) == Get(notes, k)
    ensures forall k :: !SingleBefore(gs, t, k) ==> Get(InferStep(gs, t - 1, prev).value, k) == Get(notes, k)
  {
    forall k | !SingleBefore(gs, t, k)
      ensures Get(InferStep(gs, t - 1, prev).value, k) == Get(notes, k)
    {
      assert !SingleBefore(gs, t - 1, k);
      InferStepFrame(gs, t - 1, prev, k);
    }
  }

  /** A pass of the inference loop keeps every inferred single key described by `Inferred`. */
  lemma SinglesInferredStep(gs: seq<seq<Key>>, notes: NoteMap, prev: NoteMap, t: nat)
    requires 0 < t <= |gs| && NonEmptyGroups(gs) && DistinctGroups(gs)
    requires InferStep(gs, t - 1, prev).Some?
    requires forall k :: !SingleBefore(gs, t - 1, k) ==> Get(prev, k) == Get(notes, k)
    requires forall i :: 0 <= i < t - 1 && |gs[i]| == 1 ==> Get(prev, gs[i][0]) == Inferred(gs, prev, notes, i)
    ensures forall i :: 0 <= i < t && |gs[i]| == 1 ==>
      Get(InferStep(gs, t - 1, prev).value, gs[i][0]) == Inferred(gs, InferStep(gs, t - 1, prev).value, notes, i)
  {
    forall i | 0 <= i < t && |gs[i]| == 1
      ensures Get(InferStep(gs, t - 1, prev).value, gs[i][0]) == Inferred(gs, InferStep(gs, t - 1, prev).value, notes, i)
    {
      if i > 0 {
        assert Last(gs[i - 1]) == gs[i - 1][|gs[i - 1]| - 1];
      }
      if i < t - 1 {
        if |gs[t - 1]| == 1 {
          assert gs[i][0] != gs[t - 1][0];
          if i > 0 {
            assert Last(gs[i - 1]) != gs[t - 1][0];
          }
        }
        InferredEarlier(gs, notes, prev, t, i);
      } else {
        if i > 0 {
          assert Last(gs[i - 1]) != gs[i][0];
        }
        if i < |gs| - 1 {
          assert !SingleBefore(gs, i, gs[i + 1][0]);
        }
        assert !SingleBefore(gs, i, gs[i][0]);
        InferredLast(gs, notes, prev, t);
      }
    }
  }

  /** A single key inferred before pass t - 1 keeps its note and its description. */
  lemma InferredEarlier(gs: seq<seq<Key>>, notes: NoteMap, prev: NoteMap, t: nat, i: nat)
    requires 0 < t <= |gs| && NonEmptyGroups(gs)
    requires InferStep(gs, t - 1, prev).Some?
    requires i < t - 1 && |gs[i]| == 1
    requires i > 0 && |gs[t - 1]| == 1 ==> Last(gs[i - 1]) != gs[t - 1][0]
    requires |gs[t - 1]| == 1 ==> gs[i][0] != gs[t - 1][0]
    requires Get(prev, gs[i][0]) == Inferred(gs, prev, notes, i)
    ensures Get(InferStep(gs, t - 1, prev).value, gs[i][0]) == Inferred(gs, InferStep(gs, t - 1, prev).value, notes, i)
  {
    if i > 0 {
      InferStepFrame(gs, t - 1, prev, Last(gs[i - 1]));
    }
    InferStepFrame(gs, t - 1, prev, gs[i][0]);
  }

  /** Pass t - 1 gives its own single key the note `Inferred` describes. */
  lemma InferredLast(gs: seq<seq<Key>>, notes: NoteMap, prev: NoteMap, t: nat)
    requires 0 < t <= |gs| && NonEmptyGroups(gs)
    requires InferStep(gs, t - 1, prev).Some? && |gs[t - 1]| == 1
    requires t > 1 ==> Last(gs[t - 2]) != gs[t - 1][0]
    requires forall k :: !SingleBefore(gs, t - 1, k) ==> Get(prev, k) == Get(notes, k)
    requires t < |gs| ==> !SingleBefore(gs, t - 1, gs[t][0])
    requires !SingleBefore(gs, t - 1, gs[t - 1][0])
    ensures Get(InferStep(gs, t - 1, prev).value, gs[t - 1][0])
         == Inferred(gs, InferStep(gs, t - 1, prev).value, notes, t - 1)
  {
    if t > 1 {
      InferStepFrame(gs, t - 1, prev, Last(gs[t - 2]));
    }
  }

  /** Once `Note(...)` has raised, the rest of the loop does not run: nothing changes any more. */
  lemma {:induction false} SinglesStayFailed(gs: seq<seq<Key>>, notes: NoteMap, t: nat, u: nat)
    requires t <= u <= |gs| && NonEmptyGroups(gs)
    requires !SinglesUpTo(gs, notes, t).ok
    ensures SinglesUpTo(gs, notes, u) == SinglesUpTo(gs, notes, t)
  {
    if u > t {
      SinglesStayFailed(gs, notes, t, u - 1);
    }
  }

  /**
   * Two single-key groups right after a group whose last key reads A# make
   * the inference raise: the first single becomes A# + 2 = C#, and the
   * second would be C# + 2, which is no member.
   */
  lemma SinglesRaise(gs: seq<seq<Key>>, notes: NoteMap, t: nat)
    requires NonEmptyGroups(gs) && DistinctGroups(gs) && t + 2 < |gs|
    requires |gs[t]| != 1 && |gs[t + 1]| == 1 && |gs[t + 2]| == 1
    requires Get(notes, Last(gs[t])) == Some(ASharp)
    ensures !Singles(gs, notes).ok
  {
    var r1 := SinglesUpTo(gs, notes, t + 1);
    if r1.ok {
      SinglesClosedForm(gs, notes, t + 1);
      assert !SingleBefore(gs, t + 1, Last(gs[t]));
      assert Get(r1.notes, Last(gs[t])) == Some(ASharp);
      ShiftOfSharp(ASharp);
      var step1 := InferStep(gs, t + 1, r1.notes);
      assert step1 == Some(r1.notes[gs[t + 1][0] := Some(CSharp)]);
      var r2 := SinglesUpTo(gs, notes, t + 2);
      assert r2 == Inference(step1.value, true);
      assert Last(gs[t + 1]) == gs[t + 1][0];
      assert Get(r2.notes, Last(gs[t + 1])) == Some(CSharp);
      ShiftOfSharp(CSharp);
      assert InferStep(gs, t + 2, r2.notes).None?;
      assert !SinglesUpTo(gs, notes, t + 3).ok;
      SinglesStayFailed(gs, notes, t + 3, |gs|);
    } else {
      SinglesStayFailed(gs, notes, t + 1, |gs|);
    }
  }

  /**
   * So a three-key group followed by two single-key groups makes labelling
   * raise ValueError, whatever the keys' notes were before.
   */
  lemma PatternsThenSinglesRaise(gs: seq<seq<Key>>, notes: NoteMap, t: nat)
    requires NonEmptyGroups(gs) && DistinctGroups(gs) && t + 2 < |gs|
    requires |gs[t]| == 3 && |gs[t + 1]| == 1 && |gs[t + 2]| == 1
    ensures !Singles(gs, Patterns(gs, notes)).ok
  {
    PatternsClosedForm(gs, notes, |gs|);
    assert Last(gs[t]) == gs[t][2];
    SinglesRaise(gs, Patterns(gs, notes), t);
  }

  // ---------------------------------------------------------------------
  // The A1 anchor
  // ---------------------------------------------------------------------

  /** Black keys j and j+1 read G# and A# and w lies strictly between them. */
  predicate Brackets(B: seq<Key>, notes: NoteMap, j: nat, w: Key)
    requires j + 1 < |B|
  {
    Get(notes, B[j]) == Some(GSharp) && Get(notes, B[j + 1]) == Some(ASharp) && B[j].x < w.x < B[j + 1].x
  }

  /** Some consecutive G#, A# pair of black keys brackets w. */
  predicate Candidate(B: seq<Key>, notes: NoteMap, w: Key) {
    exists j: nat :: j + 1 < |B| && Brackets(B, notes, j, w)
  }

  /** The first white key at index `from` or later that is a candidate. */
  function FirstMatch(W: seq<Key>, B: seq<Key>, notes: NoteMap, from: nat): (r: Option<nat>)
    ensures r.Some? ==> from <= r.value < |W| && Candidate(B, notes, W[r.value])
    ensures r.Some? ==> forall i :: from <= i < r.value ==> !Candidate(B, notes, W[i])
    ensures r.None? ==> forall i :: from <= i < |W| ==> !Candidate(B, notes, W[i])
    decreases |W| - from
  {
    if from >= |W| then None
    else if Candidate(B, notes, W[from]) then Some(from)
    else FirstMatch(W, B, notes, from + 1)
  }

  /**
   * The index the anchor search ends with. A match at index 0 is recorded
   * but does not stop the search (index 0 is falsy), so a later match
   * replaces it; without a later one the anchor stays at 0.
   */
  function AnchorIndex(W: seq<Key>, B: seq<Key>, notes: NoteMap): (r: Option<nat>)
    ensures r.None? <==> forall i :: 0 <= i < |W| ==> !Candidate(B, notes, W[i])
    ensures r.Some? ==> r.value < |W| && Candidate(B, notes, W[r.value])
    ensures r.Some? && r.value > 0 ==> forall i :: 1 <= i < r.value ==> !Candidate(B, notes, W[i])
    ensures r == Some(0) ==> forall i :: 1 <= i < |W| ==> !Candidate(B, notes, W[i])
  {
    match FirstMatch(W, B, notes, 0)
    case None => None
    case Some(i) =>
      if i != 0 then Some(i)
      else
        var later := FirstMatch(W, B, notes, 1);
        if later.Some? then later else Some(0)
  }

  /** The search sets a matched white key to A, octave 1. */
  function Mark(l: Labels, w: Key): Labels {
    Labels(l.notes[w := Some(A)], l.octaves[w := Some(1)])
  }

  /** The labels after the anchor search: index 0 when it matched, then the anchor. */
  function AnchorMarks(W: seq<Key>, B: seq<Key>, l: Labels): Labels {
    var l0 := if FirstMatch(W, B, l.notes, 0) == Some(0) then Mark(l, W[0]) else l;
    match AnchorIndex(W, B, l.notes)
    case None => l0
    case Some(a) => Mark(l0, W[a])
  }

  // ---------------------------------------------------------------------
  // Spreading notes and octaves out from the anchor
  // ---------------------------------------------------------------------

  /** The octave of a white key d places right of A1 (`1 + dist // 7`). */
  function OctaveRightOfA1(d: int): int {
    1 + d / 7
  }

  /** The octave of a white key d places left of A1 (`-(dist // 7)`). */
  function OctaveLeftOfA1(d: int): int {
    -(d / 7)
  }

  /** The octave of a black key d places right of A#1 (`1 + dist // 5`). */
  function OctaveRightOfASharp1(d: int): int {
    1 + d / 5
  }

  /** The octave of a black key d places left of A#1 (`-(dist // 5)`). */
  function OctaveLeftOfASharp1(d: int): int {
    -(d / 5)
  }

  /** The right walk over white keys a+1 .. k-1: d places right reads ScaleNote(d), octave 1 + d / 7. */
  function RightWalk(W: seq<Key>, a: nat, l: Labels, k: nat): Labels
    requires a < k <= |W|
  {
    if k == a + 1 then l
    else
      var p := RightWalk(W, a, l, k - 1);
      var d := k - 1 - a;
      Labels(p.notes[W[k - 1] := Some(ScaleNote(d))], p.octaves[W[k - 1] := Some(OctaveRightOfA1(d))])
  }

  /**
   * Where `W[a - 1::-1]` starts: at a - 1, except that for a = 0 the start
   * -1 is the last index, so the slice is the whole list backwards.
   */
  function LeftStart(n: nat, a: nat): int {
    if a == 0 then n - 1 else a - 1
  }

  /** The left walk over the first j keys of the backward slice from `start`: the d-th reads ScaleNote(-d), octave -(d / 7). */
  function LeftWalk(W: seq<Key>, start: nat, l: Labels, j: nat): Labels
    requires start < |W| && j <= start + 1
  {
    if j == 0 then l
    else
      var p := LeftWalk(W, start, l, j - 1);
      var pos := start - (j - 1);
      var d: int := j;
      Labels(p.notes[W[pos] := Some(ScaleNote(-d))], p.octaves[W[pos] := Some(OctaveLeftOfA1(d))])
  }

  /** Both white walks, rightwards then leftwards from the anchor W[a]. */
  function Walks(W: seq<Key>, a: nat, l: Labels): Labels
    requires a < |W|
  {
    var start := LeftStart(|W|, a);
    LeftWalk(W, start, RightWalk(W, a, l, |W|), start + 1)
  }

  /**
   * `min(filter(lambda k: k.x > x, B), key=lambda k: k.x - x)` scanning
   * from index i with the best index so far: the first key right of x at the
   * smallest distance. None is the ValueError of `min` on nothing.
   */
  function NearestRight(B: seq<Key>, x: int, i: nat, best: Option<nat>): (r: Option<nat>)
    requires best.Some? ==> best.value < |B|
    ensures r.Some? ==> r.value < |B|
    decreases |B| - i
  {
    if i >= |B| then best
    else if B[i].x > x && (best.None? || B[i].x - x < B[best.value].x - x) then NearestRight(B, x, i + 1, Some(i))
    else NearestRight(B, x, i + 1, best)
  }

  /** `list.index(k)`: the first index holding the object k. */
  function IndexOf(B: seq<Key>, k: Key): (i: nat)
    requires k in B
    ensures i < |B| && B[i] == k && forall j :: 0 <= j < i ==> B[j] != k
  {
    if B[0] == k then 0 else 1 + IndexOf(B[1..], k)
  }

  /** Black keys p+1 .. k-1: d places right of A#1 get octave 1 + d / 5. */
  function BlackRight(B: seq<Key>, p: nat, o: OctaveMap, k: nat): OctaveMap
    requires p < k <= |B|
  {
    if k == p + 1 then o else BlackRight(B, p, o, k - 1)[B[k - 1] := Some(OctaveRightOfASharp1(k - 1 - p))]
  }

  /**
   * The first j keys of `tuple(enumerate(B))[p - 1::-1]` from `start`; the
   * enumeration index is the key's own index i, and it gets octave
   * -((p - i) / 5) (Python's floor division, which is Dafny's for a
   * positive divisor).
   */
  function BlackLeft(B: seq<Key>, p: nat, start: nat, o: OctaveMap, j: nat): OctaveMap
    requires start < |B| && j <= start + 1
  {
    if j == 0 then o
    else
      var i := start - (j - 1);
      BlackLeft(B, p, start, o, j - 1)[B[i] := Some(OctaveLeftOfASharp1(p - i))]
  }

  // ---------------------------------------------------------------------
  // The whole of label_keys
  // ---------------------------------------------------------------------

  /** The key lists after labelling, the labels, and whether it ran to the end. */
  datatype Outcome = Outcome(blacks: seq<Key>, whites: seq<Key>, labels: Labels, ok: bool)

  /** The groups label_keys forms from the black keys in x order. */
  function BlackGroups(B: seq<Key>): seq<seq<Key>>
    requires |B| >= 2
  {
    Groups(B, Mean(Gaps(B)))
  }

  /**
   * label_keys on black keys B0, white keys W0 and their labels l0. It
   * fails (ok false) when the note inference raises, leaving the white keys
   * unsorted and all octaves as they were, or when `min` finds no black key
   * right of the anchor.
   */
  function Label(B0: seq<Key>, W0: seq<Key>, l0: Labels): (r: Outcome)
    requires |B0| >= 2
    ensures r.blacks == SortByX(B0)
    ensures r.whites == W0 || r.whites == SortByX(W0)
    ensures r.ok ==> r.whites == SortByX(W0)
    ensures multiset(r.whites) == multiset(W0)
  {
    var B := SortByX(B0);
    var inf := InferenceOf(B0, l0);
    if !inf.ok then Outcome(B, W0, Labels(inf.notes, l0.octaves), false)
    else Place(B, SortByX(W0), Labels(inf.notes, l0.octaves))
  }

  /**
   * Lines 163-197 on sorted black keys B and sorted white keys W: the
   * anchor search, then the spread from the anchor if there is one.
   */
  function Place(B: seq<Key>, W: seq<Key>, l: Labels): (r: Outcome)
    ensures r.blacks == B && r.whites == W
  {
    var l2 := AnchorMarks(W, B, l);
    match AnchorIndex(W, B, l.notes)
    case None => Outcome(B, W, l2, true)
    case Some(a) => Spread(B, W, a, l2)
  }

  /**
   * Lines 177-197: the walks out from the anchor W[a] over the white keys,
   * then the octaves of the black keys around the first black key right of
   * the anchor.
   */
  function Spread(B: seq<Key>, W: seq<Key>, a: nat, l: Labels): (r: Outcome)
    requires a < |W|
    ensures r.blacks == B && r.whites == W
  {
    var l4 := Walks(W, a, l);
    match NearestRight(B, W[a].x, 0, None)
    case None => Outcome(B, W, l4, false)
    case Some(p0) =>
      var p := IndexOf(B, B[p0]);
      var o5 := BlackRight(B, p, l4.octaves[B[p0] := Some(1)], |B|);
      var bstart := LeftStart(|B|, p);
      Outcome(B, W, Labels(l4.notes, BlackLeft(B, p, bstart, o5, bstart + 1)), true)
  }

  /** The black-key notes once the pattern and inference loops have run. */
  function InferenceOf(B0: seq<Key>, l0: Labels): Inference
    requires |B0| >= 2
  {
    var gs := BlackGroups(SortByX(B0));
    Singles(gs, Patterns(gs, l0.notes))
  }

  /** The anchor index the search ends with. */
  function AnchorOf(B0: seq<Key>, W0: seq<Key>, l0: Labels): Option<nat>
    requires |B0| >= 2
  {
    AnchorIndex(SortByX(W0), SortByX(B0), InferenceOf(B0, l0).notes)
  }

  // ---------------------------------------------------------------------
  // The walks in closed form
  // ---------------------------------------------------------------------

  /** key is none of s[lo..hi]. */
  predicate Avoids(s: seq<Key>, lo: int, hi: int, key: Key) {
    forall m :: lo <= m < hi && 0 <= m < |s| ==> s[m] != key
  }

  /** The right walk gives the white key d places right of A1 the note ScaleNote(d). */
  lemma {:induction false} RightWalkNotes(W: seq<Key>, a: nat, l: Labels, k: nat)
    requires a < k <= |W| && Distinct(W)
    ensures forall m :: a < m < k ==> Get(RightWalk(W, a, l, k).notes, W[m]) == Some(ScaleNote(m - a))
  {
    if k > a + 1 {
      RightWalkNotes(W, a, l, k - 1);
      var p := RightWalk(W, a, l, k - 1).notes;
      var r := RightWalk(W, a, l, k).notes;
      assert r == p[W[k - 1] := Some(ScaleNote(k - 1 - a))];
      forall m | a < m < k - 1
        ensures Get(r, W[m]) == Some(ScaleNote(m - a))
      {
        assert W[m] != W[k - 1];
      }
    }
  }

  /** The right walk gives the white key d places right of A1 the octave 1 + d / 7. */
  lemma {:induction false} RightWalkOctaves(W: seq<Key>, a: nat, l: Labels, k: nat)
    requires a < k <= |W| && Distinct(W)
    ensures forall m :: a < m < k ==> Get(RightWalk(W, a, l, k).octaves, W[m]) == Some(OctaveRightOfA1(m - a))
  {
    if k > a + 1 {
      RightWalkOctaves(W, a, l, k - 1);
      var p := RightWalk(W, a, l, k - 1).octaves;
      var r := RightWalk(W, a, l, k).octaves;
      assert r == p[W[k - 1] := Some(OctaveRightOfA1(k - 1 - a))];
      forall m | a < m < k - 1
        ensures Get(r, W[m]) == Some(OctaveRightOfA1(m - a))
      {
        assert W[m] != W[k - 1];
      }
    }
  }

  /** The right walk leaves every other key alone. */
  lemma {:induction false} RightWalkFrame(W: seq<Key>, a: nat, l: Labels, k: nat, key: Key)
    requires a < k <= |W| && Avoids(W, a + 1, k, key)
    ensures Get(RightWalk(W, a, l, k).notes, key) == Get(l.notes, key)
    ensures Get(RightWalk(W, a, l, k).octaves, key) == Get(l.octaves, key)
  {
    if k > a + 1 {
      assert W[k - 1] != key;
      RightWalkFrame(W, a, l, k - 1, key);
      var p := RightWalk(W, a, l, k - 1);
      assert RightWalk(W, a, l, k).notes == p.notes[W[k - 1] := Some(ScaleNote(k - 1 - a))];
      assert RightWalk(W, a, l, k).octaves == p.octaves[W[k - 1] := Some(OctaveRightOfA1(k - 1 - a))];
    }
  }

  /** The left walk gives the d-th key of the backward slice the note ScaleNote(-d). */
  lemma {:induction false} LeftWalkNotes(W: seq<Key>, start: nat, l: Labels, j: nat)
    requires start < |W| && j <= start + 1 && Distinct(W)
    ensures forall m :: start - j < m <= start ==> Get(LeftWalk(W, start, l, j).notes, W[m]) == Some(ScaleNote(m - start - 1))
  {
    if j > 0 {
      LeftWalkNotes(W, start, l, j - 1);
      var pos := start - (j - 1);
      var d: int := j;
      var p := LeftWalk(W, start, l, j - 1).notes;
      var r := LeftWalk(W, start, l, j).notes;
      assert r == p[W[pos] := Some(ScaleNote(-d))];
      forall m | pos < m <= start
        ensures Get(r, W[m]) == Some(ScaleNote(m - start - 1))
      {
        assert W[m] != W[pos];
      }
    }
  }

  /** The left walk gives the d-th key of the backward slice the octave -(d / 7). */
  lemma {:induction false} LeftWalkOctaves(W: seq<Key>, start: nat, l: Labels, j: nat)
    requires start < |W| && j <= start + 1 && Distinct(W)
    ensures forall m :: start - j < m <= start ==> Get(LeftWalk(W, start, l, j).octaves, W[m]) == Some(OctaveLeftOfA1(start - m + 1))
  {
    if j > 0 {
      LeftWalkOctaves(W, start, l, j - 1);
      var pos := start - (j - 1);
      var d: int := j;
      var p := LeftWalk(W, start, l, j - 1).octaves;
      var r := LeftWalk(W, start, l, j).octaves;
      assert r == p[W[pos] := Some(OctaveLeftOfA1(d))];
      forall m | pos < m <= start
        ensures Get(r, W[m]) == Some(OctaveLeftOfA1(start - m + 1))
      {
        assert W[m] != W[pos];
      }
    }
  }

  /** The left walk leaves every other key alone. */
  lemma {:induction false} LeftWalkFrame(W: seq<Key>, start: nat, l: Labels, j: nat, key: Key)
    requires start < |W| && j <= start + 1 && Avoids(W, start - j + 1, start + 1, key)
    ensures Get(LeftWalk(W, start, l, j).notes, key) == Get(l.notes, key)
    ensures Get(LeftWalk(W, start, l, j).octaves, key) == Get(l.octaves, key)
  {
    if j > 0 {
      assert W[start - (j - 1)] != key;
      LeftWalkFrame(W, start, l, j - 1, key);
      var p := LeftWalk(W, start, l, j - 1);
      assert LeftWalk(W, start, l, j).notes == p.notes[W[start - (j - 1)] := Some(ScaleNote(-(j as int)))];
      assert LeftWalk(W, start, l, j).octaves == p.octaves[W[start - (j - 1)] := Some(OctaveLeftOfA1(j))];
    }
  }

  /** The black right walk gives the key d places right of A#1 the octave 1 + d / 5. */
  lemma {:induction false} BlackRightClosedForm(B: seq<Key>, p: nat, o: OctaveMap, k: nat)
    requires p < k <= |B| && Distinct(B)
    ensures forall m :: p < m < k ==> Get(BlackRight(B, p, o, k), B[m]) == Some(OctaveRightOfASharp1(m - p))
  {
    if k > p + 1 {
      BlackRightClosedForm(B, p, o, k - 1);
      forall m | p < m < k - 1
        ensures Get(BlackRight(B, p, o, k), B[m]) == Some(OctaveRightOfASharp1(m - p))
      {
        assert B[m] != B[k - 1];
      }
    }
  }

  /** The black right walk writes black keys only. */
  lemma {:induction false} BlackRightFrame(B: seq<Key>, p: nat, o: OctaveMap, k: nat, key: Key)
    requires p < k <= |B| && Avoids(B, p + 1, k, key)
    ensures Get(BlackRight(B, p, o, k), key) == Get(o, key)
  {
    if k > p + 1 {
      assert B[k - 1] != key;
      BlackRightFrame(B, p, o, k - 1, key);
    }
  }

  /** The black left walk gives key i of the backward slice the octave -((p - i) / 5). */
  lemma {:induction false} BlackLeftClosedForm(B: seq<Key>, p: nat, start: nat, o: OctaveMap, j: nat)
    requires start < |B| && j <= start + 1 && Distinct(B)
    ensures forall m :: start - j < m <= start ==> Get(BlackLeft(B, p, start, o, j), B[m]) == Some(OctaveLeftOfASharp1(p - m))
  {
    if j > 0 {
      BlackLeftClosedForm(B, p, start, o, j - 1);
      var i := start - (j - 1);
      forall m | i < m <= start
        ensures Get(BlackLeft(B, p, start, o, j), B[m]) == Some(OctaveLeftOfASharp1(p - m))
      {
        assert B[m] != B[i];
      }
    }
  }

  /** The black left walk writes black keys only. */
  lemma {:induction false} BlackLeftFrame(B: seq<Key>, p: nat, start: nat, o: OctaveMap, j: nat, key: Key)
    requires start < |B| && j <= start + 1 && Avoids(B, start - j + 1, start + 1, key)
    ensures Get(BlackLeft(B, p, start, o, j), key) == Get(o, key)
  {
    if j > 0 {
      assert B[start - (j - 1)] != key;
      BlackLeftFrame(B, p, start, o, j - 1, key);
    }
  }

  // ---------------------------------------------------------------------
  // What label_keys produces
  // ---------------------------------------------------------------------

  /** Once a key right of x is the best, no later key of a sorted list beats it. */
  lemma {:induction false} NearestKeeps(B: seq<Key>, x: int, i: nat, p: nat)
    requires SortedByX(B) && p < i && p < |B| && B[p].x > x
    ensures NearestRight(B, x, i, Some(p)) == Some(p)
    decreases |B| - i
  {
    if i < |B| {
      assert B[p].x <= B[i].x;
      NearestKeeps(B, x, i + 1, p);
    }
  }

  /** In a sorted list `min` picks the first key right of x. */
  lemma {:induction false} NearestIsFirstRight(B: seq<Key>, x: int, i: nat, q: nat)
    requires SortedByX(B) && i <= q < |B| && B[q].x > x
    ensures var r := NearestRight(B, x, i, None);
      r.Some? && r.value <= q && B[r.value].x > x && forall k :: i <= k < r.value ==> B[k].x <= x
    decreases |B| - i
  {
    if B[i].x > x {
      NearestKeeps(B, x, i + 1, i);
    } else {
      NearestIsFirstRight(B, x, i + 1, q);
    }
  }

  /** No key is both a black key and a white key. */
  predicate Apart(B: seq<Key>, W: seq<Key>) {
    forall k :: k in B ==> k !in W
  }


  /** The white note d places from A1, with the wrap-around of an anchor at index 0. */
  function WhiteNote(n: nat, a: nat, m: nat): Note {
    if a == 0 then ScaleNote(m - n) else ScaleNote(m - a)
  }

  /** The white octave of index m for an anchor at index a (of n white keys). */
  function WhiteOctave(n: nat, a: nat, m: nat): int {
    if a == 0 then OctaveLeftOfA1(n - m)
    else if m >= a then OctaveRightOfA1(m - a)
    else OctaveLeftOfA1(a - m)
  }

  /** The black octave of index m when A#1 is at index p. */
  function BlackOctave(p: nat, m: nat): int {
    if m >= p then OctaveRightOfASharp1(m - p) else OctaveLeftOfASharp1(p - m)
  }

  /** What the anchor search leaves in the labels of the anchor itself. */
  lemma AnchorMarked(W: seq<Key>, B: seq<Key>, l: Labels, a: nat)
    requires AnchorIndex(W, B, l.notes) == Some(a)
    ensures Get(AnchorMarks(W, B, l).notes, W[a]) == Some(A)
    ensures Get(AnchorMarks(W, B, l).octaves, W[a]) == Some(1)
  {
  }

  /** The anchor search writes white keys only. */
  lemma AnchorMarksFrame(W: seq<Key>, B: seq<Key>, l: Labels, k: Key)
    requires k !in W
    ensures Get(AnchorMarks(W, B, l).notes, k) == Get(l.notes, k)
    ensures Get(AnchorMarks(W, B, l).octaves, k) == Get(l.octaves, k)
  {
    if FirstMatch(W, B, l.notes, 0) == Some(0) {
      assert W[0] != k;
    }
    var r := AnchorIndex(W, B, l.notes);
    if r.Some? {
      assert W[r.value] != k;
    }
  }

  /**
   * After both walks from an anchor W[a] reading A1, white key m reads
   * ScaleNote(m - a) from the anchor rightwards and leftwards. With the
   * anchor at index 0 the backward slice runs over the whole list, anchor
   * included, so index m reads ScaleNote(m - n) for n white keys.
   */
  lemma WalksNotes(W: seq<Key>, a: nat, l: Labels)
    requires a < |W| && Distinct(W) && Get(l.notes, W[a]) == Some(A)
    ensures forall m :: 0 <= m < |W| ==> Get(Walks(W, a, l).notes, W[m]) == Some(WhiteNote(|W|, a, m))
  {
    var start := LeftStart(|W|, a);
    var l3 := RightWalk(W, a, l, |W|);
    var r := Walks(W, a, l).notes;
    RightWalkNotes(W, a, l, |W|);
    LeftWalkNotes(W, start, l3, start + 1);
    forall m | 0 <= m < |W|
      ensures Get(r, W[m]) == Some(WhiteNote(|W|, a, m))
    {
      if a == 0 || m < a {
        assert m - start - 1 == (if a == 0 then m - |W| else m - a);
      } else {
        assert Avoids(W, 0, a, W[m]);
        LeftWalkFrame(W, start, l3, start + 1, W[m]);
        if m == a {
          assert Avoids(W, a + 1, |W|, W[a]);
          RightWalkFrame(W, a, l, |W|, W[a]);
          assert ScaleNote(0) == A;
        }
      }
    }
  }

  /**
   * After both walks from an anchor W[a] with octave 1, white key m has
   * octave 1 + (m - a) / 7 from the anchor rightwards and -((a - m) / 7)
   * leftwards; with the anchor at index 0, -((n - m) / 7) for n white keys.
   */
  lemma WalksOctaves(W: seq<Key>, a: nat, l: Labels)
    requires a < |W| && Distinct(W) && Get(l.octaves, W[a]) == Some(1)
    ensures forall m :: 0 <= m < |W| ==> Get(Walks(W, a, l).octaves, W[m]) == Some(WhiteOctave(|W|, a, m))
  {
    var start := LeftStart(|W|, a);
    var l3 := RightWalk(W, a, l, |W|);
    RightWalkOctaves(W, a, l, |W|);
    LeftWalkOctaves(W, start, l3, start + 1);
    forall m | 0 <= m < |W| && a > 0 && m >= a
      ensures Get(Walks(W, a, l).octaves, W[m]) == Some(WhiteOctave(|W|, a, m))
    {
      assert Avoids(W, 0, a, W[m]);
      LeftWalkFrame(W, start, l3, start + 1, W[m]);
      if m == a {
        assert Avoids(W, a + 1, |W|, W[a]);
        RightWalkFrame(W, a, l, |W|, W[a]);
      }
    }
  }

  /** The white walks write white keys only. */
  lemma WalksFrame(W: seq<Key>, a: nat, l: Labels, key: Key)
    requires a < |W| && key !in W
    ensures Get(Walks(W, a, l).notes, key) == Get(l.notes, key)
    ensures Get(Walks(W, a, l).octaves, key) == Get(l.octaves, key)
  {
    var start := LeftStart(|W|, a);
    RightWalkFrame(W, a, l, |W|, key);
    LeftWalkFrame(W, start, RightWalk(W, a, l, |W|), start + 1, key);
  }

  /** The black octave pass writes black keys only. */
  lemma SpreadFrame(B: seq<Key>, W: seq<Key>, a: nat, l: Labels, key: Key)
    requires a < |W| && key !in B
    ensures Get(Spread(B, W, a, l).labels.notes, key) == Get(Walks(W, a, l).notes, key)
    ensures Get(Spread(B, W, a, l).labels.octaves, key) == Get(Walks(W, a, l).octaves, key)
  {
    var l4 := Walks(W, a, l);
    var p0 := NearestRight(B, W[a].x, 0, None);
    if p0.Some? {
      var p := IndexOf(B, B[p0.value]);
      var o := l4.octaves[B[p0.value] := Some(1)];
      var bstart := LeftStart(|B|, p);
      assert Avoids(B, p + 1, |B|, key) && Avoids(B, 0, bstart + 1, key);
      BlackRightFrame(B, p, o, |B|, key);
      BlackLeftFrame(B, p, bstart, BlackRight(B, p, o, |B|), bstart + 1, key);
    }
  }

  /** When the inference raises, label_keys ends there. */
  lemma LabelUnfoldsRaised(B0: seq<Key>, W0: seq<Key>, l0: Labels)
    requires |B0| >= 2 && !InferenceOf(B0, l0).ok
    ensures Label(B0, W0, l0) == Outcome(SortByX(B0), W0, Labels(InferenceOf(B0, l0).notes, l0.octaves), false)
  {
  }

  /** When the inference does not raise, label_keys goes on to place the white keys. */
  lemma LabelUnfoldsPlaced(B0: seq<Key>, W0: seq<Key>, l0: Labels)
    requires |B0| >= 2 && InferenceOf(B0, l0).ok
    ensures Label(B0, W0, l0) == Place(SortByX(B0), SortByX(W0), Labels(InferenceOf(B0, l0).notes, l0.octaves))
  {
  }

  /** With an anchor at index a, label_keys ends with the spread from it. */
  lemma LabelSpreads(B0: seq<Key>, W0: seq<Key>, l0: Labels, a: nat)
    requires |B0| >= 2 && InferenceOf(B0, l0).ok && AnchorOf(B0, W0, l0) == Some(a)
    ensures a < |SortByX(W0)|
    ensures Candidate(SortByX(B0), InferenceOf(B0, l0).notes, SortByX(W0)[a])
    ensures Label(B0, W0, l0)
         == Spread(SortByX(B0), SortByX(W0), a, AnchorMarks(SortByX(W0), SortByX(B0), Labels(InferenceOf(B0, l0).notes, l0.octaves)))
  {
  }

  /**
   * With an anchor at index a, label_keys sorts the white keys by x and
   * labels every one of them: index m reads WhiteNote and WhiteOctave.
   */
  lemma LabelWhites(B0: seq<Key>, W0: seq<Key>, l0: Labels, a: nat)
    requires |B0| >= 2 && Distinct(W0) && Apart(B0, W0)
    requires InferenceOf(B0, l0).ok && AnchorOf(B0, W0, l0) == Some(a)
    ensures var out := Label(B0, W0, l0);
      && out.whites == SortByX(W0)
      && forall m :: 0 <= m < |out.whites| ==>
           Get(out.labels.notes, out.whites[m]) == Some(WhiteNote(|out.whites|, a, m))
           && Get(out.labels.octaves, out.whites[m]) == Some(WhiteOctave(|out.whites|, a, m))
  {
    LabelSpreads(B0, W0, l0, a);
    var B, W := SortByX(B0), SortByX(W0);
    SortByXDistinct(W0);
    var l1 := Labels(InferenceOf(B0, l0).notes, l0.octaves);
    var l2 := AnchorMarks(W, B, l1);
    AnchorMarked(W, B, l1, a);
    WalksNotes(W, a, l2);
    WalksOctaves(W, a, l2);
    forall m | 0 <= m < |W|
      ensures Get(Spread(B, W, a, l2).labels.notes, W[m]) == Get(Walks(W, a, l2).notes, W[m])
      ensures Get(Spread(B, W, a, l2).labels.octaves, W[m]) == Get(Walks(W, a, l2).octaves, W[m])
    {
      SortedKeys(B0, W[m]);
      SortedKeys(W0, W[m]);
      SpreadFrame(B, W, a, l2, W[m]);
    }
  }

  /** Index p holds the first key of B whose x exceeds x. */
  predicate FirstRightOf(B: seq<Key>, x: int, p: nat) {
    p < |B| && B[p].x > x && forall q :: 0 <= q < p ==> B[q].x <= x
  }

  /** In a sorted list `min` over the keys right of x picks the first of them. */
  lemma NearestIsFirst(B: seq<Key>, x: int, p: nat)
    requires SortedByX(B) && FirstRightOf(B, x, p)
    ensures NearestRight(B, x, 0, None) == Some(p)
  {
    NearestIsFirstRight(B, x, 0, p);
  }

  /** In a list without repeats `index` finds a key at its own position. */
  lemma IndexOfDistinct(B: seq<Key>, p: nat)
    requires Distinct(B) && p < |B|
    ensures IndexOf(B, B[p]) == p
  {
  }

  /**
   * When the first black key right of the anchor is B[p] with p >= 1, the
   * black pass succeeds and gives B[m] the octave 1 + (m - p) / 5 from
   * A#1 rightwards and -((p - m) / 5) leftwards.
   */
  lemma SpreadBlackOctaves(B: seq<Key>, W: seq<Key>, a: nat, l: Labels, p: nat)
    requires a < |W| && SortedByX(B) && Distinct(B) && FirstRightOf(B, W[a].x, p) && p >= 1
    ensures Spread(B, W, a, l).ok
    ensures forall m :: 0 <= m < |B| ==> Get(Spread(B, W, a, l).labels.octaves, B[m]) == Some(BlackOctave(p, m))
  {
    NearestIsFirst(B, W[a].x, p);
    IndexOfDistinct(B, p);
    var o := Walks(W, a, l).octaves[B[p] := Some(1)];
    var o5 := BlackRight(B, p, o, |B|);
    BlackRightClosedForm(B, p, o, |B|);
    BlackLeftClosedForm(B, p, p - 1, o5, p);
    forall m | p <= m < |B|
      ensures Get(BlackLeft(B, p, p - 1, o5, p), B[m]) == Some(BlackOctave(p, m))
    {
      assert Avoids(B, 0, p, B[m]);
      BlackLeftFrame(B, p, p - 1, o5, p, B[m]);
      if m == p {
        assert Avoids(B, p + 1, |B|, B[p]);
        BlackRightFrame(B, p, o, |B|, B[p]);
      }
    }
  }

  /** The black pass changes octaves only: every note is as the walks left it. */
  lemma SpreadNotes(B: seq<Key>, W: seq<Key>, a: nat, l: Labels)
    requires a < |W|
    ensures Spread(B, W, a, l).labels.notes == Walks(W, a, l).notes
  {
  }

  /**
   * An anchor brackets it between black keys j and j + 1, so the first
   * black key right of it is j + 1: the A# of that pair, never index 0.
   */
  lemma AnchorFirstRight(B: seq<Key>, notes: NoteMap, w: Key) returns (p: nat)
    requires SortedByX(B) && Candidate(B, notes, w)
    ensures FirstRightOf(B, w.x, p) && p >= 1 && Brackets(B, notes, p - 1, w)
  {
    var j: nat :| j + 1 < |B| && Brackets(B, notes, j, w);
    p := j + 1;
    forall q | 0 <= q < p
      ensures B[q].x <= w.x
    {
      assert B[q].x <= B[j].x;
    }
  }

  /** When the inference does not raise, label_keys leaves every black note as inferred. */
  lemma LabelKeepsBlackNotes(B0: seq<Key>, W0: seq<Key>, l0: Labels, k: Key)
    requires |B0| >= 2 && Apart(B0, W0) && InferenceOf(B0, l0).ok && k in B0
    ensures Get(Label(B0, W0, l0).labels.notes, k) == Get(InferenceOf(B0, l0).notes, k)
  {
    LabelUnfoldsPlaced(B0, W0, l0);
    var B, W := SortByX(B0), SortByX(W0);
    var l1 := Labels(InferenceOf(B0, l0).notes, l0.octaves);
    var l2 := AnchorMarks(W, B, l1);
    SortedKeys(W0, k);
    AnchorMarksFrame(W, B, l1, k);
    match AnchorIndex(W, B, l1.notes)
    case None =>
    case Some(a) =>
      SpreadNotes(B, W, a, l2);
      WalksFrame(W, a, l2, k);
  }

  /**
   * With an anchor and black keys that are also no white keys, label_keys
   * runs to the end and gives the black key m the octave BlackOctave(p, m),
   * where A#1 = B[p] is the A# of the pair that brackets the anchor and the
   * first black key right of it.
   */
  lemma LabelBlacks(B0: seq<Key>, W0: seq<Key>, l0: Labels, a: nat, p: nat)
    requires |B0| >= 2 && Distinct(B0)
    requires InferenceOf(B0, l0).ok && AnchorOf(B0, W0, l0) == Some(a)
    requires FirstRightOf(SortByX(B0), SortByX(W0)[a].x, p)
    ensures var out := Label(B0, W0, l0);
      && out.ok && out.blacks == SortByX(B0) && p >= 1
      && Brackets(out.blacks, InferenceOf(B0, l0).notes, p - 1, SortByX(W0)[a])
      && forall m :: 0 <= m < |out.blacks| ==> Get(out.labels.octaves, out.blacks[m]) == Some(BlackOctave(p, m))
  {
    LabelSpreads(B0, W0, l0, a);
    SortByXDistinct(B0);
    var notes := InferenceOf(B0, l0).notes;
    SpreadBlacks(SortByX(B0), SortByX(W0), a, AnchorMarks(SortByX(W0), SortByX(B0), Labels(notes, l0.octaves)), notes, p);
  }

  /** The black pass of a spread from an anchor that a G#, A# pair brackets. */
  lemma SpreadBlacks(B: seq<Key>, W: seq<Key>, a: nat, l: Labels, notes: NoteMap, p: nat)
    requires a < |W| && SortedByX(B) && Distinct(B)
    requires Candidate(B, notes, W[a]) && FirstRightOf(B, W[a].x, p)
    ensures p >= 1 && Brackets(B, notes, p - 1, W[a])
    ensures var out := Spread(B, W, a, l);
      && out.ok && out.blacks == B
      && forall m :: 0 <= m < |B| ==> Get(out.labels.octaves, B[m]) == Some(BlackOctave(p, m))
  {
    var p' := AnchorFirstRight(B, notes, W[a]);
    FirstRightUnique(B, W[a].x, p, p');
    SpreadBlackOctaves(B, W, a, l, p);
  }

  /** Only one index holds the first key right of x. */
  lemma FirstRightUnique(B: seq<Key>, x: int, p: nat, q: nat)
    requires FirstRightOf(B, x, p) && FirstRightOf(B, x, q)
    ensures p == q
  {
  }

  /**
   * Without an anchor, label_keys runs to the end with the white keys
   * sorted and assigns no white note and no octave at all: the labels are
   * the inferred black notes and the octaves as they were.
   */
  lemma LabelNoAnchor(B0: seq<Key>, W0: seq<Key>, l0: Labels)
    requires |B0| >= 2 && InferenceOf(B0, l0).ok && AnchorOf(B0, W0, l0).None?
    ensures var out := Label(B0, W0, l0);
      && out.ok && out.blacks == SortByX(B0) && out.whites == SortByX(W0)
      && out.labels == Labels(InferenceOf(B0, l0).notes, l0.octaves)
  {
  }

  /**
   * When the inference raises, label_keys stops: the black keys are sorted,
   * the white keys are still in their old order and no octave has changed.
   */
  lemma LabelRaises(B0: seq<Key>, W0: seq<Key>, l0: Labels)
    requires |B0| >= 2 && !InferenceOf(B0, l0).ok
    ensures var out := Label(B0, W0, l0);
      && !out.ok && out.blacks == SortByX(B0) && out.whites == W0 && out.labels.octaves == l0.octaves
  {
    LabelUnfoldsRaised(B0, W0, l0);
  }

  /**
   * So black keys whose groups, in x order, hold a group of three followed
   * by two single keys make label_keys raise, whatever their notes were.
   */
  lemma LabelRaisesOnTripleThenSingles(B0: seq<Key>, W0: seq<Key>, l0: Labels, t: nat)
    requires |B0| >= 2 && Distinct(B0)
    requires var gs := BlackGroups(SortByX(B0)); t + 2 < |gs| && |gs[t]| == 3 && |gs[t + 1]| == 1 && |gs[t + 2]| == 1
    ensures !Label(B0, W0, l0).ok && Label(B0, W0, l0).whites == W0
  {
    var B := SortByX(B0);
    SortByXDistinct(B0);
    GroupsShape(B, Mean(Gaps(B)));
    PatternsThenSinglesRaise(BlackGroups(B), l0.notes, t);
  }

  /**
   * The note the two loops give place m of group t: the pattern note in a
   * group of two or three, the inferred note for a single key, and the old
   * note in a group of four or more.
   */
  function GroupNote(gs: seq<seq<Key>>, after: NoteMap, notes: NoteMap, t: nat, m: nat): Option<Note>
    requires t < |gs| && m < |gs[t]| && NonEmptyGroups(gs)
  {
    if |gs[t]| == 2 || |gs[t]| == 3 then PatternNote(|gs[t]|, m)
    else if |gs[t]| == 1 then Inferred(gs, after, Patterns(gs, notes), t)
    else Get(notes, gs[t][m])
  }

  /** The note the two loops leave at place m of group t. */
  lemma InferenceAt(gs: seq<seq<Key>>, notes: NoteMap, t: nat, m: nat)
    requires NonEmptyGroups(gs) && DistinctGroups(gs) && Singles(gs, Patterns(gs, notes)).ok
    requires t < |gs| && m < |gs[t]|
    ensures var r := Singles(gs, Patterns(gs, notes));
      Get(r.notes, gs[t][m]) == GroupNote(gs, r.notes, notes, t, m)
  {
    var before := Patterns(gs, notes);
    var after := Singles(gs, before).notes;
    if |gs[t]| == 1 {
      SinglesClosedForm(gs, before, |gs|);
      assert Get(after, gs[t][0]) == Inferred(gs, after, before, t);
      assert m == 0;
      assert GroupNote(gs, after, notes, t, m) == Inferred(gs, after, before, t);
    } else {
      InferenceKeepsPatterns(gs, before, t, m);
      PatternsClosedForm(gs, notes, |gs|);
      assert Get(before, gs[t][m]) == if |gs[t]| == 2 || |gs[t]| == 3 then PatternNote(|gs[t]|, m) else Get(notes, gs[t][m]);
    }
  }

  /** The inference loop leaves keys of groups of two or more alone. */
  lemma InferenceKeepsPatterns(gs: seq<seq<Key>>, before: NoteMap, t: nat, m: nat)
    requires NonEmptyGroups(gs) && DistinctGroups(gs)
    requires t < |gs| && m < |gs[t]| && |gs[t]| != 1
    ensures Get(Singles(gs, before).notes, gs[t][m]) == Get(before, gs[t][m])
  {
    SinglesClosedForm(gs, before, |gs|);
    assert !SingleBefore(gs, |gs|, gs[t][m]);
  }

  /** The pattern loop and then the inference loop, in closed form. */
  lemma InferenceClosedForm(gs: seq<seq<Key>>, notes: NoteMap)
    requires NonEmptyGroups(gs) && DistinctGroups(gs)
    ensures var r := Singles(gs, Patterns(gs, notes));
      r.ok ==> forall t, m :: 0 <= t < |gs| && 0 <= m < |gs[t]| ==> Get(r.notes, gs[t][m]) == GroupNote(gs, r.notes, notes, t, m)
  {
    if Singles(gs, Patterns(gs, notes)).ok {
      forall t, m | 0 <= t < |gs| && 0 <= m < |gs[t]|
        ensures Get(Singles(gs, Patterns(gs, notes)).notes, gs[t][m]) == GroupNote(gs, Singles(gs, Patterns(gs, notes)).notes, notes, t, m)
      {
        InferenceAt(gs, notes, t, m);
      }
    }
  }

  /** The two loops write only keys of the groups. */
  lemma InferenceGroupsFrame(gs: seq<seq<Key>>, notes: NoteMap, k: Key)
    requires NonEmptyGroups(gs) && DistinctGroups(gs) && !InGroups(gs, |gs|, k)
    ensures Get(Singles(gs, Patterns(gs, notes)).notes, k) == Get(notes, k)
  {
    PatternsClosedForm(gs, notes, |gs|);
    SinglesClosedForm(gs, Patterns(gs, notes), |gs|);
    assert !SingleBefore(gs, |gs|, k);
  }

  /** label_keys gives only black keys notes of its own: every other key keeps its note. */
  lemma InferenceFrame(B0: seq<Key>, l0: Labels, k: Key)
    requires |B0| >= 2 && Distinct(B0) && k !in B0
    ensures Get(InferenceOf(B0, l0).notes, k) == Get(l0.notes, k)
  {
    var B := SortByX(B0);
    SortByXDistinct(B0);
    SortedKeys(B0, k);
    var gs := BlackGroups(B);
    GroupsShape(B, Mean(Gaps(B)));
    if InGroups(gs, |gs|, k) {
      var t, m :| 0 <= t < |gs| && 0 <= m < |gs[t]| && gs[t][m] == k;
      InFlatten(gs, t, m);
    } else {
      InferenceGroupsFrame(gs, l0.notes, k);
    }
  }

  /**
   * When the inference does not raise, label_keys gives the black key at
   * place m of group t the note GroupNote describes.
   */
  lemma LabelBlackNotes(B0: seq<Key>, W0: seq<Key>, l0: Labels)
    requires |B0| >= 2 && Distinct(B0) && Apart(B0, W0) && InferenceOf(B0, l0).ok
    ensures var gs := BlackGroups(SortByX(B0));
      NonEmptyGroups(gs) && Flatten(gs) == SortByX(B0)
      && forall t, m :: 0 <= t < |gs| && 0 <= m < |gs[t]| ==>
           Get(Label(B0, W0, l0).labels.notes, gs[t][m]) == GroupNote(gs, InferenceOf(B0, l0).notes, l0.notes, t, m)
  {
    var B := SortByX(B0);
    SortByXDistinct(B0);
    var gs := BlackGroups(B);
    GroupsShape(B, Mean(Gaps(B)));
    InferenceClosedForm(gs, l0.notes);
    forall t, m | 0 <= t < |gs| && 0 <= m < |gs[t]|
      ensures Get(Label(B0, W0, l0).labels.notes, gs[t][m]) == Get(InferenceOf(B0, l0).notes, gs[t][m])
    {
      LabelKeepsGroupNote(B0, W0, l0, t, m);
    }
  }

  /** The key at place m of group t is a black key, so label_keys keeps its inferred note. */
  lemma LabelKeepsGroupNote(B0: seq<Key>, W0: seq<Key>, l0: Labels, t: nat, m: nat)
    requires |B0| >= 2 && Distinct(B0) && Apart(B0, W0) && InferenceOf(B0, l0).ok
    requires var gs := BlackGroups(SortByX(B0)); t < |gs| && m < |gs[t]|
    ensures var gs := BlackGroups(SortByX(B0));
      Get(Label(B0, W0, l0).labels.notes, gs[t][m]) == Get(InferenceOf(B0, l0).notes, gs[t][m])
  {
    var B := SortByX(B0);
    SortByXDistinct(B0);
    var gs := BlackGroups(B);
    GroupsShape(B, Mean(Gaps(B)));
    InFlatten(gs, t, m);
    SortedKeys(B0, gs[t][m]);
    LabelKeepsBlackNotes(B0, W0, l0, gs[t][m]);
  }

  /** Without an anchor, label_keys leaves the note of every white key as it was. */
  lemma LabelNoAnchorWhiteNotes(B0: seq<Key>, W0: seq<Key>, l0: Labels, k: Key)
    requires |B0| >= 2 && Distinct(B0) && InferenceOf(B0, l0).ok && AnchorOf(B0, W0, l0).None?
    requires k in W0 && Apart(B0, W0)
    ensures Get(Label(B0, W0, l0).labels.notes, k) == Get(l0.notes, k)
    ensures Get(Label(B0, W0, l0).labels.octaves, k) == Get(l0.octaves, k)
  {
    LabelNoAnchor(B0, W0, l0);
    InferenceFrame(B0, l0, k);
  }
}
