// Key-state tracking (useKeyboardInput): six logical flags updated by
// keydown/keyup edges, a fixed-precedence direction, and an input event
// emitted only when an edge counts as a change.
module KeyboardInput {
  import opened Types

  /** The key code bound to each logical flag. The default bindings live
      outside this model; the map is a parameter. */
  datatype KeyMap = KeyMap(up: string, down: string, left: string, right: string, punch: string, kick: string)

  /** A snapshot of the six flags. */
  datatype KeyState = KeyState(up: bool, down: bool, left: bool, right: bool, punch: bool, kick: bool)

  const AllReleased := KeyState(false, false, false, false, false, false)

  /** getDirection: diagonals first (up-left, up-right, down-left,
      down-right), then up, down, left, right, else neutral. Equivalently,
      the vertical component is taken from up (else down) and the
      horizontal one from left (else right). */
  function GetDirection(s: KeyState): (d: Direction)
    ensures Vertical(d) == (if s.up then 1 else if s.down then -1 else 0)
    ensures Horizontal(d) == (if s.left then -1 else if s.right then 1 else 0)
    ensures d == Neutral <==> !s.up && !s.down && !s.left && !s.right
    ensures Vertical(d) != 0 && Horizontal(d) != 0 <==> (s.up || s.down) && (s.left || s.right)
  {
    if s.up && s.left then UpLeft
    else if s.up && s.right then UpRight
    else if s.down && s.left then DownLeft
    else if s.down && s.right then DownRight
    else if s.up then Up
    else if s.down then Down
    else if s.left then Left
    else if s.right then Right
    else Neutral
  }

  /** The event emitted for the current flags at time `now`. */
  function Emit(s: KeyState, now: int): InputRecord
  {
    InputRecord(GetDirection(s), s.punch, s.kick, now)
  }

  /** Whether `code` is bound to at least one flag. */
  predicate IsMapped(km: KeyMap, code: string)
  {
    code == km.up || code == km.down || code == km.left || code == km.right || code == km.punch || code == km.kick
  }

  /** A raw key edge with its time. */
  datatype KeyEdge = KeyDownEdge(code: string, time: int) | KeyUpEdge(code: string, time: int)

  /** Flags after a keydown of `code`: every flag bound to it is set. */
  function KeyDownFlags(s: KeyState, km: KeyMap, code: string): KeyState
  {
    KeyState(s.up || code == km.up, s.down || code == km.down,
             s.left || code == km.left, s.right || code == km.right,
             s.punch || code == km.punch, s.kick || code == km.kick)
  }

  /** Whether a keydown of `code` finds some flag bound to it still clear. */
  predicate NewlyPressed(s: KeyState, km: KeyMap, code: string)
  {
    || (code == km.up && !s.up) || (code == km.down && !s.down)
    || (code == km.left && !s.left) || (code == km.right && !s.right)
    || (code == km.punch && !s.punch) || (code == km.kick && !s.kick)
  }

  /** Flags after a keyup of `code`: every flag bound to it is cleared. */
  function KeyUpFlags(s: KeyState, km: KeyMap, code: string): KeyState
  {
    KeyState(s.up && code != km.up, s.down && code != km.down,
             s.left && code != km.left, s.right && code != km.right,
             s.punch && code != km.punch, s.kick && code != km.kick)
  }

  /** The flags and the emitted event (if any) after one edge. A keydown
      emits only if it set a flag that was clear; a keyup emits whenever
      the code is bound, even if the flag was already clear. */
  function Step(s: KeyState, km: KeyMap, edge: KeyEdge): (r: (KeyState, Option<InputRecord>))
    ensures edge.KeyDownEdge? ==> (r.1.Some? <==> r.0 != s)
    ensures edge.KeyDownEdge? ==> (r.1.Some? <==> NewlyPressed(s, km, edge.code))
    ensures edge.KeyUpEdge? ==> (r.1.Some? <==> IsMapped(km, edge.code))
    ensures !IsMapped(km, edge.code) ==> r.0 == s && r.1 == None
    ensures r.1.Some? ==> r.1.value == Emit(r.0, edge.time)
  {
    match edge
    case KeyDownEdge(code, time) =>
      var s' := KeyDownFlags(s, km, code);
      (s', if s' != s then Some(Emit(s', time)) else None)
    case KeyUpEdge(code, time) =>
      var s' := KeyUpFlags(s, km, code);
      (s', if IsMapped(km, code) then Some(Emit(s', time)) else None)
  }

  /** A repeated keydown (auto-repeat) changes nothing and emits nothing. */
  lemma RepeatedKeyDownSilent(s: KeyState, km: KeyMap, code: string, t1: int, t2: int)
    ensures Step(Step(s, km, KeyDownEdge(code, t1)).0, km, KeyDownEdge(code, t2)) == (Step(s, km, KeyDownEdge(code, t1)).0, None)
  {
  }

  /** From the initial flags, releasing any bound key emits a neutral event
      with no buttons. */
  lemma FirstKeyUpIsNeutral(km: KeyMap, code: string, now: int)
    requires IsMapped(km, code)
    ensures Step(AllReleased, km, KeyUpEdge(code, now)).1 == Some(InputRecord(Neutral, false, false, now))
  {
  }

  /** The tracker: `keyState` is the record of flags the handlers update,
      one flag at a time, while accumulating whether anything changed. The
      handlers work on the six flags and store the record back before
      emitting, which is all that can observe it. */
  class KeyboardInput {
    const keyMap: KeyMap
    var keyState: KeyState

    constructor (keyMap: KeyMap)
      ensures this.keyMap == keyMap && keyState == AllReleased
    {
      this.keyMap := keyMap;
      keyState := AllReleased;
    }

    /** handleKeyDown: set each still-clear flag bound to `code`, and emit
        if any was set. */
    method HandleKeyDown(code: string, now: int) returns (emitted: Option<InputRecord>)
      modifies this
      ensures keyState == KeyDownFlags(old(keyState), keyMap, code)
      ensures emitted == if keyState != old(keyState) then Some(Emit(keyState, now)) else None
    {
      var up, down, left, right, punch, kick := keyState.up, keyState.down, keyState.left, keyState.right, keyState.punch, keyState.kick;
      var changed := false;
      if code == keyMap.up && !up {
        up := true;
        changed := true;
      }
      if code == keyMap.down && !down {
        down := true;
        changed := true;
      }
      if code == keyMap.left && !left {
        left := true;
        changed := true;
      }
      if code == keyMap.right && !right {
        right := true;
        changed := true;
      }
      if code == keyMap.punch && !punch {
        punch := true;
        changed := true;
      }
      if code == keyMap.kick && !kick {
        kick := true;
        changed := true;
      }
      keyState := KeyState(up, down, left, right, punch, kick);
      if changed {
        emitted := Some(Emit(keyState, now));
      } else {
        emitted := None;
      }
    }

    /** handleKeyUp: clear each flag bound to `code`, and emit if `code`
        is bound at all. */
    method HandleKeyUp(code: string, now: int) returns (emitted: Option<InputRecord>)
      modifies this
      ensures keyState == KeyUpFlags(old(keyState), keyMap, code)
      ensures emitted == if IsMapped(keyMap, code) then Some(Emit(keyState, now)) else None
    {
      var up, down, left, right, punch, kick := keyState.up, keyState.down, keyState.left, keyState.right, keyState.punch, keyState.kick;
      var changed := false;
      if code == keyMap.up {
        up := false;
        changed := true;
      }
      if code == keyMap.down {
        down := false;
        changed := true;
      }
      if code == keyMap.left {
        left := false;
        changed := true;
      }
      if code == keyMap.right {
        right := false;
        changed := true;
      }
      if code == keyMap.punch {
        punch := false;
        changed := true;
      }
      if code == keyMap.kick {
        kick := false;
        changed := true;
      }
      keyState := KeyState(up, down, left, right, punch, kick);
      if changed {
        emitted := Some(Emit(keyState, now));
      } else {
        emitted := None;
      }
    }
  }
}
