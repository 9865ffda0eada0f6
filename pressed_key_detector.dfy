/**
 * `PressedKeyDetector`: which keys the detected contour centres fall on,
 * narrowed to keys under a fingertip, and the debouncing of those raw
 * presses. A key becomes pressed only after it has been raw-active for
 * STICKINESS + 1 calls in a row, and is released only after it has been
 * absent for STICKINESS + 1 calls in a row.
 *
 * The debounce state of one key is a KeyState; each call moves every key's
 * state by the same pure function Advance, and the detector's set and two
 * maps are that state for all keys at once.
 */
module PressDetection {
  import opened Options
  import opened Keys
  import opened KeysManagement

  /** Calls a pending change waits before it takes effect. */
  const STICKINESS: int := 2

  // ---------------------------------------------------------------------
  // Raw presses
  // ---------------------------------------------------------------------

  /** `fingertip_within_key`: the point lies strictly inside the key's rectangle. */
  predicate FingertipWithinKey(p: Point, key: Key) {
    key.x < p.x < key.x + key.width && key.y < p.y < key.y + key.height
  }

  /** Some point of ps lies strictly inside the key. */
  predicate Covers(ps: seq<Point>, key: Key) {
    exists i :: 0 <= i < |ps| && FingertipWithinKey(ps[i], key)
  }

  /** The keys of the list that some centre lies strictly inside. */
  function Nominated(centres: seq<Point>, keys: seq<Key>): set<Key> {
    set k | k in keys && Covers(centres, k)
  }

  /** Lines 43-47: the keys that some centre lies strictly inside. */
  method Nominate(centres: seq<Point>, keys: seq<Key>) returns (pressed: set<Key>)
    ensures pressed == Nominated(centres, keys)
    ensures forall k :: k in pressed <==> k in keys && Covers(centres, k)
  {
    pressed := {};
    var c := 0;
    while c < |centres|
      invariant 0 <= c <= |centres|
      invariant forall k :: k in pressed <==> k in keys && Covers(centres[..c], k)
    {
      var centre := centres[c];
      var i := 0;
      while i < |keys|
        invariant 0 <= i <= |keys|
        invariant forall k :: k in pressed <==>
          k in keys && (Covers(centres[..c], k) || (k in keys[..i] && FingertipWithinKey(centre, k)))
      {
        var key := keys[i];
        if key.x < centre.x < key.x + key.width && key.y < centre.y < key.y + key.height {
          pressed := pressed + {key};
        }
        i := i + 1;
      }
      CoversExtend(centres, c, keys);
      c := c + 1;
    }
    assert centres[..|centres|] == centres;
  }

  /** The centres up to c + 1 cover a key when those up to c do or centre c does. */
  lemma CoversExtend(centres: seq<Point>, c: nat, keys: seq<Key>)
    requires c < |centres|
    ensures forall k :: Covers(centres[..c + 1], k) <==> Covers(centres[..c], k) || FingertipWithinKey(centres[c], k)
    ensures forall k :: k in keys[..|keys|] <==> k in keys
  {
    assert keys[..|keys|] == keys;
    forall k ensures Covers(centres[..c + 1], k) <==> Covers(centres[..c], k) || FingertipWithinKey(centres[c], k) {
      if Covers(centres[..c + 1], k) {
        var i :| 0 <= i < c + 1 && FingertipWithinKey(centres[..c + 1][i], k);
        if i < c {
          assert centres[..c][i] == centres[..c + 1][i];
        }
      }
      if Covers(centres[..c], k) {
        var i :| 0 <= i < c && FingertipWithinKey(centres[..c][i], k);
        assert centres[..c + 1][i] == centres[..c][i];
      }
      if FingertipWithinKey(centres[c], k) {
        assert centres[..c + 1][c] == centres[c];
      }
    }
  }

  /**
   * Lines 49-54: with fingertips given and non-empty, only the keys that
   * contain a fingertip stay; otherwise nothing is filtered.
   */
  function FilterByFingertips(pressed: set<Key>, fingertips: Option<seq<Point>>): (r: set<Key>)
    ensures fingertips.None? || fingertips == Some([]) ==> r == pressed
    ensures fingertips.Some? && fingertips.value != [] ==>
      && (forall k :: k in r ==> k in pressed && Covers(fingertips.value, k))
      && (forall k :: k in pressed && Covers(fingertips.value, k) ==> k in r)
  {
    if fingertips.Some? && fingertips.value != [] then
      set k | k in pressed && Covers(fingertips.value, k)
    else pressed
  }

  // ---------------------------------------------------------------------
  // The debounce state of one key
  // ---------------------------------------------------------------------

  /**
   * One key's part of the detector: whether it is in `currently_pressed`,
   * and its `to_be_added` and `to_be_removed` counters when it has them.
   */
  datatype KeyState = KeyState(pressed: bool, adding: Option<int>, removing: Option<int>)

  /** No key: not pressed, nothing pending. */
  const Idle := KeyState(false, None, None)

  /**
   * The three invariants: a pending addition is for a key not yet pressed,
   * a pending removal for a pressed key, and every counter is in
   * 1..STICKINESS.
   */
  predicate Consistent(s: KeyState) {
    && (s.adding.Some? ==> !s.pressed && 1 <= s.adding.value <= STICKINESS)
    && (s.removing.Some? ==> s.pressed && 1 <= s.removing.value <= STICKINESS)
  }

  /** Lines 61-66: a pending addition of a key absent from the input is dropped. */
  function DropStale(s: KeyState, active: bool): KeyState {
    if active then s else s.(adding := None)
  }

  /**
   * Lines 68-82 for a raw-active key: a pending removal is cancelled; a key
   * not yet pressed counts its pending addition down, and is pressed when the
   * counter reaches 0, or starts one at STICKINESS.
   */
  function CountIn(s: KeyState, active: bool): KeyState {
    if !active then s
    else
      var t := s.(removing := None);
      if t.pressed then t
      else match t.adding
        case None => t.(adding := Some(STICKINESS))
        case Some(n) => if n - 1 == 0 then t.(adding := None, pressed := true) else t.(adding := Some(n - 1))
  }

  /**
   * Lines 84-95 for a pressed key absent from the input: its pending removal
   * counts down, and it is released when the counter reaches 0, or starts
   * one at STICKINESS.
   */
  function CountOut(s: KeyState, active: bool): KeyState {
    if active || !s.pressed then s
    else match s.removing
      case None => s.(removing := Some(STICKINESS))
      case Some(n) => if n - 1 == 0 then s.(removing := None, pressed := false) else s.(removing := Some(n - 1))
  }

  /**
   * A loop that has handled some keys: a handled key has moved by CountIn
   * (inward) or CountOut, the others are as before.
   */
  function StepIf(s: KeyState, done: bool, inward: bool, active: bool): KeyState {
    if !done then s else if inward then CountIn(s, active) else CountOut(s, active)
  }

  /** One call of `process_sticky_pressed_changes`, for one key. */
  function Advance(s: KeyState, active: bool): KeyState {
    CountOut(CountIn(DropStale(s, active), active), active)
  }

  /** Advance keeps the three invariants. */
  lemma AdvanceConsistent(s: KeyState, active: bool)
    requires Consistent(s)
    ensures Consistent(Advance(s, active))
  {
  }

  /** A key becomes pressed only on a call where it is raw-active, and is released only on one where it is absent. */
  lemma AdvanceMoves(s: KeyState, active: bool)
    ensures Advance(s, active).pressed && !s.pressed ==> active
    ensures !Advance(s, active).pressed && s.pressed ==> !active
  {
  }

  /** A raw-active pressed key stays pressed and loses its pending removal. */
  lemma PressedAgain(s: KeyState)
    requires s.pressed
    ensures Advance(s, true) == s.(removing := None)
  {
  }

  /** A pending addition whose key is absent is dropped. */
  lemma AbsentNotAdded(s: KeyState)
    requires Consistent(s)
    ensures Advance(s, false).adding.None?
  {
  }

  /** Nothing happens to an idle key that stays absent. */
  lemma IdleStaysIdle()
    ensures Advance(Idle, false) == Idle
  {
  }

  /** The state after n calls with the same raw activity. */
  function Repeat(s: KeyState, active: bool, n: nat): KeyState {
    if n == 0 then s else Advance(Repeat(s, active, n - 1), active)
  }

  /**
   * A key raw-active from idle: after n calls with 1 <= n <= STICKINESS it
   * waits with counter STICKINESS + 1 - n, and on call STICKINESS + 1 it is
   * pressed, with nothing pending.
   */
  lemma {:induction false} PressTakesEffect(n: nat)
    requires n <= STICKINESS + 1
    ensures 1 <= n <= STICKINESS ==> Repeat(Idle, true, n) == KeyState(false, Some(STICKINESS + 1 - n), None)
    ensures n == STICKINESS + 1 ==> Repeat(Idle, true, n) == KeyState(true, None, None)
    ensures Repeat(Idle, true, n).pressed <==> n == STICKINESS + 1
  {
    if n > 0 {
      PressTakesEffect(n - 1);
    }
  }

  /** The pressed state a press settles in. */
  const Held := KeyState(true, None, None)

  /**
   * A pressed key absent from the input: after n calls with 1 <= n <=
   * STICKINESS it is still pressed with counter STICKINESS + 1 - n, and on
   * call STICKINESS + 1 it is released, with nothing pending.
   */
  lemma {:induction false} ReleaseTakesEffect(n: nat)
    requires n <= STICKINESS + 1
    ensures 1 <= n <= STICKINESS ==> Repeat(Held, false, n) == KeyState(true, None, Some(STICKINESS + 1 - n))
    ensures n == STICKINESS + 1 ==> Repeat(Held, false, n) == Idle
    ensures Repeat(Held, false, n).pressed <==> n <= STICKINESS
  {
    if n > 0 {
      ReleaseTakesEffect(n - 1);
    }
  }

  /** An interrupted press starts over: one absent call drops the pending addition. */
  lemma PressInterrupted(n: nat)
    requires 1 <= n <= STICKINESS
    ensures Advance(Repeat(Idle, true, n), false) == Idle
  {
    PressTakesEffect(n);
  }

  // ---------------------------------------------------------------------
  // The detector
  // ---------------------------------------------------------------------

  function Lookup(m: map<Key, int>, k: Key): Option<int> {
    if k in m then Some(m[k]) else None
  }

  /** The debounce state of key k in the detector's set and maps. */
  function StateOf(pressed: set<Key>, adding: map<Key, int>, removing: map<Key, int>, k: Key): KeyState {
    KeyState(k in pressed, Lookup(adding, k), Lookup(removing, k))
  }

  /**
   * The three invariants on the whole detector: the pending additions are
   * of keys not pressed, the pending removals of pressed keys, and every
   * counter is in 1..STICKINESS.
   */
  predicate Invariants(pressed: set<Key>, adding: map<Key, int>, removing: map<Key, int>) {
    && (forall k :: k in adding ==> k !in pressed && 1 <= adding[k] <= STICKINESS)
    && (forall k :: k in removing ==> k in pressed && 1 <= removing[k] <= STICKINESS)
  }

  /** The invariants hold of the detector exactly when every key's state is Consistent. */
  lemma InvariantsPointwise(pressed: set<Key>, adding: map<Key, int>, removing: map<Key, int>)
    ensures Invariants(pressed, adding, removing) <==> forall k :: Consistent(StateOf(pressed, adding, removing, k))
  {
    if forall k :: Consistent(StateOf(pressed, adding, removing, k)) {
      forall k | k in adding
        ensures k !in pressed && 1 <= adding[k] <= STICKINESS
      {
        assert Consistent(StateOf(pressed, adding, removing, k));
      }
      forall k | k in removing
        ensures k in pressed && 1 <= removing[k] <= STICKINESS
      {
        assert Consistent(StateOf(pressed, adding, removing, k));
      }
    }
  }

  class PressedKeyDetector {
    const keysManager: KeysManager
    var currentlyPressed: set<Key>
    var toBeAdded: map<Key, int>
    var toBeRemoved: map<Key, int>

    /** Every key's state keeps the three invariants. */
    ghost predicate Valid()
      reads this
    {
      Invariants(currentlyPressed, toBeAdded, toBeRemoved)
    }

    /** The state of key k. */
    ghost function State(k: Key): KeyState
      reads this
    {
      StateOf(currentlyPressed, toBeAdded, toBeRemoved, k)
    }

    /** Lines 11-16, without the reference frame: nothing pressed, nothing pending. */
    constructor (keysManager: KeysManager)
      ensures this.keysManager == keysManager
      ensures currentlyPressed == {} && toBeAdded == map[] && toBeRemoved == map[]
      ensures Valid()
    {
      this.keysManager := keysManager;
      currentlyPressed, toBeAdded, toBeRemoved := {}, map[], map[];
    }

    /**
     * `process_sticky_pressed_changes`: every key's state moves by Advance,
     * raw-active exactly when it is in pressedKeys, and the invariants stay.
     */
    method ProcessStickyPressedChanges(pressedKeys: set<Key>)
      requires Valid()
      modifies this
      ensures forall k :: State(k) == Advance(StateOf(old(currentlyPressed), old(toBeAdded), old(toBeRemoved), k), k in pressedKeys)
      ensures Valid()
    {
      InvariantsPointwise(currentlyPressed, toBeAdded, toBeRemoved);
      DropPendingAdds(pressedKeys);
      ghost var p1, a1, r1 := currentlyPressed, toBeAdded, toBeRemoved;
      CountPressed(pressedKeys);
      ghost var p2, a2, r2 := currentlyPressed, toBeAdded, toBeRemoved;
      CountReleased(pressedKeys);
      forall k
        ensures State(k) == Advance(StateOf(old(currentlyPressed), old(toBeAdded), old(toBeRemoved), k), k in pressedKeys)
        ensures Consistent(StateOf(currentlyPressed, toBeAdded, toBeRemoved, k))
      {
        var s0 := StateOf(old(currentlyPressed), old(toBeAdded), old(toBeRemoved), k);
        assert StateOf(p1, a1, r1, k) == DropStale(s0, k in pressedKeys);
        assert StateOf(p2, a2, r2, k) == CountIn(StateOf(p1, a1, r1, k), k in pressedKeys);
        AdvanceConsistent(s0, k in pressedKeys);
      }
      InvariantsPointwise(currentlyPressed, toBeAdded, toBeRemoved);
    }

    /** Lines 61-66: pending additions of keys absent from the input are deleted. */
    method DropPendingAdds(pressedKeys: set<Key>)
      modifies this
      ensures forall k :: State(k) == DropStale(StateOf(old(currentlyPressed), old(toBeAdded), old(toBeRemoved), k), k in pressedKeys)
    {
      var deleteAfter := StaleAdds(pressedKeys);
      DeleteAdds(deleteAfter);
    }

    /** Lines 60-63: the keys with a pending addition that are not in pressedKeys. */
    method StaleAdds(pressedKeys: set<Key>) returns (deleteAfter: seq<Key>)
      ensures forall k :: k in deleteAfter <==> k in toBeAdded && k !in pressedKeys
    {
      deleteAfter := [];
      var rest := toBeAdded.Keys;
      while rest != {}
        invariant rest <= toBeAdded.Keys
        invariant forall k :: k in deleteAfter ==> k in toBeAdded && k !in rest && k !in pressedKeys
        invariant forall k :: k in toBeAdded && k !in rest && k !in pressedKeys ==> k in deleteAfter
        decreases |rest|
      {
        var key :| key in rest;
        if key !in pressedKeys {
          deleteAfter := deleteAfter + [key];
        }
        rest := rest - {key};
      }
    }

    /** Lines 64-65: the listed keys lose their pending addition. */
    method DeleteAdds(deleteAfter: seq<Key>)
      modifies this
      ensures toBeAdded == old(toBeAdded) - (set d | d in deleteAfter)
      ensures currentlyPressed == old(currentlyPressed) && toBeRemoved == old(toBeRemoved)
    {
      var i := 0;
      while i < |deleteAfter|
        invariant 0 <= i <= |deleteAfter|
        invariant toBeAdded == old(toBeAdded) - (set d | d in deleteAfter[..i])
        invariant currentlyPressed == old(currentlyPressed) && toBeRemoved == old(toBeRemoved)
      {
        toBeAdded := toBeAdded - {deleteAfter[i]};
        assert deleteAfter[..i + 1] == deleteAfter[..i] + [deleteAfter[i]];
        i := i + 1;
      }
      assert deleteAfter[..i] == deleteAfter;
    }

    /** Lines 68-82: each raw-active key moves by CountIn. */
    method CountPressed(pressedKeys: set<Key>)
      modifies this
      ensures forall k :: State(k) == CountIn(StateOf(old(currentlyPressed), old(toBeAdded), old(toBeRemoved), k), k in pressedKeys)
    {
      var rest := pressedKeys;
      while rest != {}
        invariant rest <= pressedKeys
        invariant forall k :: State(k) == StepIf(StateOf(old(currentlyPressed), old(toBeAdded), old(toBeRemoved), k), k in pressedKeys && k !in rest, true, true)
        decreases |rest|
      {
        var key :| key in rest;
        CountInKey(key);
        rest := rest - {key};
      }
    }

    /** The body of the loop of lines 68-82, for one raw-active key. */
    method CountInKey(key: Key)
      modifies this
      ensures State(key) == CountIn(StateOf(old(currentlyPressed), old(toBeAdded), old(toBeRemoved), key), true)
      ensures forall k :: k != key ==> State(k) == StateOf(old(currentlyPressed), old(toBeAdded), old(toBeRemoved), k)
    {
      if key in toBeRemoved {
        toBeRemoved := toBeRemoved - {key};
      }
      if key !in currentlyPressed {
        if key in toBeAdded {
          toBeAdded := toBeAdded[key := toBeAdded[key] - 1];
          if toBeAdded[key] == 0 {
            toBeAdded := toBeAdded - {key};
            currentlyPressed := currentlyPressed + {key};
          }
        } else {
          toBeAdded := toBeAdded[key := STICKINESS];
        }
      }
    }

    /** Lines 84-95: each pressed key absent from the input moves by CountOut. */
    method CountReleased(pressedKeys: set<Key>)
      modifies this
      ensures forall k :: State(k) == CountOut(StateOf(old(currentlyPressed), old(toBeAdded), old(toBeRemoved), k), k in pressedKeys)
    {
      var deleteAfter := CountDownReleases(pressedKeys);
      RemovePressed(deleteAfter);
    }

    /**
     * Lines 84-93: the pending removals of the pressed keys absent from the
     * input move, and deleteAfter lists the keys whose counter ran out.
     * Released by deleteAfter, every key's state is as CountOut says.
     */
    method CountDownReleases(pressedKeys: set<Key>) returns (deleteAfter: seq<Key>)
      modifies this
      ensures currentlyPressed == old(currentlyPressed) && toBeAdded == old(toBeAdded)
      ensures forall k :: StateOf(currentlyPressed - (set d | d in deleteAfter), toBeAdded, toBeRemoved, k) == CountOut(StateOf(old(currentlyPressed), old(toBeAdded), old(toBeRemoved), k), k in pressedKeys)
    {
      deleteAfter := [];
      var rest := currentlyPressed;
      while rest != {}
        invariant rest <= currentlyPressed == old(currentlyPressed) && toBeAdded == old(toBeAdded)
        invariant forall k :: k in deleteAfter ==> k in currentlyPressed && k !in rest
        invariant forall k :: StateOf(currentlyPressed - (set d | d in deleteAfter), toBeAdded, toBeRemoved, k) == StepIf(StateOf(old(currentlyPressed), old(toBeAdded), old(toBeRemoved), k), k in currentlyPressed && k !in rest, false, k in pressedKeys)
        decreases |rest|
      {
        var key :| key in rest;
        var release := CountOutKey(key, key in pressedKeys);
        if release {
          deleteAfter := deleteAfter + [key];
        }
        rest := rest - {key};
      }
    }

    /**
     * The body of the loop of lines 84-93, for one pressed key: its pending
     * removal moves, and release says whether it is to leave the pressed set.
     */
    method CountOutKey(key: Key, active: bool) returns (release: bool)
      requires key in currentlyPressed
      modifies this
      ensures currentlyPressed == old(currentlyPressed) && toBeAdded == old(toBeAdded)
      ensures StateOf(currentlyPressed - (if release then {key} else {}), toBeAdded, toBeRemoved, key)
           == CountOut(StateOf(old(currentlyPressed), old(toBeAdded), old(toBeRemoved), key), active)
      ensures forall k :: k != key ==> Lookup(toBeRemoved, k) == Lookup(old(toBeRemoved), k)
    {
      release := false;
      if !active {
        if key in toBeRemoved {
          toBeRemoved := toBeRemoved[key := toBeRemoved[key] - 1];
          if toBeRemoved[key] == 0 {
            toBeRemoved := toBeRemoved - {key};
            release := true;
          }
        } else {
          toBeRemoved := toBeRemoved[key := STICKINESS];
        }
      }
    }

    /** Lines 94-95: the listed keys leave the pressed set. */
    method RemovePressed(deleteAfter: seq<Key>)
      modifies this
      ensures currentlyPressed == old(currentlyPressed) - (set d | d in deleteAfter)
      ensures toBeAdded == old(toBeAdded) && toBeRemoved == old(toBeRemoved)
    {
      var i := 0;
      while i < |deleteAfter|
        invariant 0 <= i <= |deleteAfter|
        invariant currentlyPressed == old(currentlyPressed) - (set d | d in deleteAfter[..i])
        invariant toBeAdded == old(toBeAdded) && toBeRemoved == old(toBeRemoved)
      {
        currentlyPressed := currentlyPressed - {deleteAfter[i]};
        assert deleteAfter[..i + 1] == deleteAfter[..i] + [deleteAfter[i]];
        i := i + 1;
      }
      assert deleteAfter[..i] == deleteAfter;
    }

    /**
     * `detect_pressed_keys` after OpenCV: the keys some centre falls in
     * (white keys, then black keys), narrowed by the fingertips, are the
     * input of one debounce step; the result is the pressed set.
     */
    method DetectPressedKeys(centres: seq<Point>, fingertips: Option<seq<Point>>) returns (pressed: set<Key>)
      requires Valid()
      modifies this
      ensures forall k :: State(k) == Advance(StateOf(old(currentlyPressed), old(toBeAdded), old(toBeRemoved), k),
        k in FilterByFingertips(Nominated(centres, old(keysManager.whiteKeys + keysManager.blackKeys)), fingertips))
      ensures pressed == currentlyPressed && Valid()
    {
      var keys := keysManager.whiteKeys + keysManager.blackKeys;
      var raw := Nominate(centres, keys);
      assert raw == Nominated(centres, keys);
      var candidates := FilterByFingertips(raw, fingertips);
      ProcessStickyPressedChanges(candidates);
      pressed := currentlyPressed;
    }
  }
}
