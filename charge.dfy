// The charge matcher of the unified detector (checkChargeCommand): hold a
// direction from the charge set for at least `chargeTime`, leave the set,
// then press the release direction with the button within `inputWindow`
// of the moment the charge ended.
module Charge {
  import opened Types

  /** Per-command charge state: when the current charge began, and when the
      last charge of sufficient length ended (None for null). */
  datatype ChargeState = ChargeState(chargeStartTime: Option<int>, lastChargeEndTime: Option<int>)

  const NoCharge := ChargeState(None, None)

  datatype ChargeResult = ChargeResult(matched: bool, newState: ChargeState)

  /** Whether a charge that began at `start` counts once it ends at `now`. */
  predicate LongEnough(start: Option<int>, now: int, chargeTime: int)
  {
    start.Some? && now - start.value >= chargeTime
  }

  /** First half of checkChargeCommand: start, keep or end the charge. While
      the direction is in the charge set an ongoing charge keeps its start;
      outside it the charge ends, and it is recorded as completed at `now`
      exactly when it was long enough. */
  function ChargeTransition(state: ChargeState, event: InputRecord, chargeDirections: seq<Direction>, chargeTime: int): (s: ChargeState)
    ensures event.direction in chargeDirections ==>
      s.lastChargeEndTime == state.lastChargeEndTime
      && s.chargeStartTime == if state.chargeStartTime.None? then Some(event.timestamp) else state.chargeStartTime
    ensures event.direction !in chargeDirections ==>
      s.chargeStartTime.None?
      && s.lastChargeEndTime == if LongEnough(state.chargeStartTime, event.timestamp, chargeTime) then Some(event.timestamp) else state.lastChargeEndTime
  {
    if event.direction in chargeDirections then
      if state.chargeStartTime.None? then state.(chargeStartTime := Some(event.timestamp)) else state
    else
      var s := if LongEnough(state.chargeStartTime, event.timestamp, chargeTime)
               then state.(lastChargeEndTime := Some(event.timestamp)) else state;
      s.(chargeStartTime := None)
  }

  /** The release condition, tested against the state after the transition. */
  predicate Releases(s: ChargeState, event: InputRecord, releaseDirection: Direction, button: Button, inputWindow: int)
  {
    && event.direction == releaseDirection
    && Pressed(event, button)
    && s.lastChargeEndTime.Some?
    && event.timestamp - s.lastChargeEndTime.value <= inputWindow
  }

  /** checkChargeCommand. It works on a copy of the caller's state (values
      here, so the caller's state is untouched by construction); a match
      consumes the completed charge, a miss leaves it for a later event. */
  function CheckChargeCommand(state: ChargeState, event: InputRecord, chargeDirections: seq<Direction>,
                              releaseDirection: Direction, button: Button, chargeTime: int, inputWindow: int): (r: ChargeResult)
    ensures var s := ChargeTransition(state, event, chargeDirections, chargeTime);
      && (r.matched <==> Releases(s, event, releaseDirection, button, inputWindow))
      && r.newState.chargeStartTime == s.chargeStartTime
      && r.newState.lastChargeEndTime == if r.matched then None else s.lastChargeEndTime
  {
    var s := ChargeTransition(state, event, chargeDirections, chargeTime);
    if Releases(s, event, releaseDirection, button, inputWindow) then
      ChargeResult(true, s.(lastChargeEndTime := None))
    else
      ChargeResult(false, s)
  }

  // ---------------------------------------------------------------------
  // Runs of events.
  // ---------------------------------------------------------------------

  /** The charge state after feeding `events` in order. */
  function Run(state: ChargeState, events: seq<InputRecord>, chargeDirections: seq<Direction>,
               releaseDirection: Direction, button: Button, chargeTime: int, inputWindow: int): ChargeState
    decreases |events|
  {
    if events == [] then state
    else
      var r := CheckChargeCommand(state, events[0], chargeDirections, releaseDirection, button, chargeTime, inputWindow);
      Run(r.newState, events[1..], chargeDirections, releaseDirection, button, chargeTime, inputWindow)
  }

  /** Whether the last of `events` fires, after the others have been fed. */
  predicate FiresOnLast(state: ChargeState, events: seq<InputRecord>, chargeDirections: seq<Direction>,
                        releaseDirection: Direction, button: Button, chargeTime: int, inputWindow: int)
    requires events != []
  {
    var before := Run(state, events[..|events| - 1], chargeDirections, releaseDirection, button, chargeTime, inputWindow);
    CheckChargeCommand(before, events[|events| - 1], chargeDirections, releaseDirection, button, chargeTime, inputWindow).matched
  }

  lemma {:induction false} RunSnoc(state: ChargeState, events: seq<InputRecord>, e: InputRecord, chargeDirections: seq<Direction>,
                                   releaseDirection: Direction, button: Button, chargeTime: int, inputWindow: int)
    ensures Run(state, events + [e], chargeDirections, releaseDirection, button, chargeTime, inputWindow)
         == CheckChargeCommand(Run(state, events, chargeDirections, releaseDirection, button, chargeTime, inputWindow),
                               e, chargeDirections, releaseDirection, button, chargeTime, inputWindow).newState
    decreases |events|
  {
    if events == [] {
      assert [e][1..] == [];
    } else {
      assert (events + [e])[1..] == events[1..] + [e];
      var r := CheckChargeCommand(state, events[0], chargeDirections, releaseDirection, button, chargeTime, inputWindow);
      RunSnoc(r.newState, events[1..], e, chargeDirections, releaseDirection, button, chargeTime, inputWindow);
    }
  }

  /** `events[i..j]` is a completed charge: held in the charge set from
      event i up to event j, event j leaves the set, and the hold lasted at
      least `chargeTime`. */
  ghost predicate CompletedCharge(events: seq<InputRecord>, i: int, j: int, chargeDirections: seq<Direction>, chargeTime: int)
  {
    && 0 <= i < j < |events|
    && (forall m :: i <= m < j ==> events[m].direction in chargeDirections)
    && events[j].direction !in chargeDirections
    && events[j].timestamp - events[i].timestamp >= chargeTime
  }

  /** What the state remembers after a run from the empty state: an ongoing
      charge began at an event from which every later event stayed in the
      charge set, and a recorded completion is the end of a completed
      charge within the run. */
  ghost predicate Explained(s: ChargeState, events: seq<InputRecord>, chargeDirections: seq<Direction>, chargeTime: int)
  {
    && (s.chargeStartTime.Some? ==>
          exists i :: 0 <= i < |events| && events[i].timestamp == s.chargeStartTime.value
                      && forall m :: i <= m < |events| ==> events[m].direction in chargeDirections)
    && (s.lastChargeEndTime.Some? ==>
          exists i, j :: CompletedCharge(events, i, j, chargeDirections, chargeTime) && events[j].timestamp == s.lastChargeEndTime.value)
  }

  lemma ExplainedStep(s: ChargeState, events: seq<InputRecord>, e: InputRecord, chargeDirections: seq<Direction>, chargeTime: int)
    requires Explained(s, events, chargeDirections, chargeTime)
    ensures Explained(ChargeTransition(s, e, chargeDirections, chargeTime), events + [e], chargeDirections, chargeTime)
  {
    var evs := events + [e];
    var n := |events|;
    var t := ChargeTransition(s, e, chargeDirections, chargeTime);
    if e.direction in chargeDirections {
      if t.chargeStartTime.Some? {
        if s.chargeStartTime.None? {
          assert evs[n].timestamp == t.chargeStartTime.value;
        } else {
          var i :| 0 <= i < n && events[i].timestamp == s.chargeStartTime.value
                   && forall m :: i <= m < n ==> events[m].direction in chargeDirections;
          assert evs[i].timestamp == t.chargeStartTime.value;
          assert forall m :: i <= m < n + 1 ==> evs[m].direction in chargeDirections;
        }
      }
    } else if LongEnough(s.chargeStartTime, e.timestamp, chargeTime) {
      var i :| 0 <= i < n && events[i].timestamp == s.chargeStartTime.value
               && forall m :: i <= m < n ==> events[m].direction in chargeDirections;
      assert CompletedCharge(evs, i, n, chargeDirections, chargeTime);
    }
    if t.lastChargeEndTime.Some? && t.lastChargeEndTime == s.lastChargeEndTime {
      var i, j :| CompletedCharge(events, i, j, chargeDirections, chargeTime) && events[j].timestamp == s.lastChargeEndTime.value;
      assert CompletedCharge(evs, i, j, chargeDirections, chargeTime);
    }
  }

  /** Soundness of the charge matcher: starting from no charge, whenever the
      last event of a run fires, the run contains a completed charge (held
      at least `chargeTime`) that ended no more than `inputWindow` before
      that last event, and the last event is the release direction with the
      button held. A short charge therefore never fires. */
  lemma {:induction false} FireNeedsCompletedCharge(events: seq<InputRecord>, chargeDirections: seq<Direction>,
                                                   releaseDirection: Direction, button: Button, chargeTime: int, inputWindow: int)
    requires events != []
    requires FiresOnLast(NoCharge, events, chargeDirections, releaseDirection, button, chargeTime, inputWindow)
    ensures var last := events[|events| - 1];
      && last.direction == releaseDirection && Pressed(last, button)
      && exists i, j :: CompletedCharge(events, i, j, chargeDirections, chargeTime)
                     && last.timestamp - events[j].timestamp <= inputWindow
  {
    var n := |events| - 1;
    var prefix := events[..n];
    assert prefix + [events[n]] == events;
    RunExplained(prefix, chargeDirections, releaseDirection, button, chargeTime, inputWindow);
    var before := Run(NoCharge, prefix, chargeDirections, releaseDirection, button, chargeTime, inputWindow);
    ExplainedStep(before, prefix, events[n], chargeDirections, chargeTime);
  }

  lemma {:induction false} RunExplained(events: seq<InputRecord>, chargeDirections: seq<Direction>,
                                       releaseDirection: Direction, button: Button, chargeTime: int, inputWindow: int)
    ensures Explained(Run(NoCharge, events, chargeDirections, releaseDirection, button, chargeTime, inputWindow), events, chargeDirections, chargeTime)
    decreases |events|
  {
    if events != [] {
      var n := |events| - 1;
      var prefix := events[..n];
      assert prefix + [events[n]] == events;
      RunExplained(prefix, chargeDirections, releaseDirection, button, chargeTime, inputWindow);
      var before := Run(NoCharge, prefix, chargeDirections, releaseDirection, button, chargeTime, inputWindow);
      RunSnoc(NoCharge, prefix, events[n], chargeDirections, releaseDirection, button, chargeTime, inputWindow);
      ExplainedStep(before, prefix, events[n], chargeDirections, chargeTime);
      var t := ChargeTransition(before, events[n], chargeDirections, chargeTime);
      var after := CheckChargeCommand(before, events[n], chargeDirections, releaseDirection, button, chargeTime, inputWindow).newState;
      assert after.chargeStartTime == t.chargeStartTime;
      if after.lastChargeEndTime.Some? {
        assert after.lastChargeEndTime == t.lastChargeEndTime;
      }
    }
  }

  lemma {:induction false} RunAppend(state: ChargeState, a: seq<InputRecord>, b: seq<InputRecord>, chargeDirections: seq<Direction>,
                                     releaseDirection: Direction, button: Button, chargeTime: int, inputWindow: int)
    ensures Run(state, a + b, chargeDirections, releaseDirection, button, chargeTime, inputWindow)
         == Run(Run(state, a, chargeDirections, releaseDirection, button, chargeTime, inputWindow),
                b, chargeDirections, releaseDirection, button, chargeTime, inputWindow)
    decreases |a|
  {
    if a != [] {
      assert (a + b)[1..] == a[1..] + b;
      var r := CheckChargeCommand(state, a[0], chargeDirections, releaseDirection, button, chargeTime, inputWindow);
      RunAppend(r.newState, a[1..], b, chargeDirections, releaseDirection, button, chargeTime, inputWindow);
    } else {
      assert a + b == b;
    }
  }

  /** Holding directions of the charge set, with no completed charge
      recorded, keeps the start of an ongoing charge or starts one at the
      first event, and records no completion. */
  lemma {:induction false} RunHolding(state: ChargeState, holds: seq<InputRecord>, chargeDirections: seq<Direction>,
                                      releaseDirection: Direction, button: Button, chargeTime: int, inputWindow: int)
    requires state.lastChargeEndTime.None?
    requires forall k :: 0 <= k < |holds| ==> holds[k].direction in chargeDirections
    ensures Run(state, holds, chargeDirections, releaseDirection, button, chargeTime, inputWindow)
         == ChargeState(if state.chargeStartTime.None? && holds != [] then Some(holds[0].timestamp) else state.chargeStartTime, None)
    decreases |holds|
  {
    if holds != [] {
      var r := CheckChargeCommand(state, holds[0], chargeDirections, releaseDirection, button, chargeTime, inputWindow);
      RunHolding(r.newState, holds[1..], chargeDirections, releaseDirection, button, chargeTime, inputWindow);
    }
  }

  /** With no charge ongoing, events outside the charge set that are not the
      release direction with the button leave the state as it is. */
  lemma {:induction false} RunAway(state: ChargeState, events: seq<InputRecord>, chargeDirections: seq<Direction>,
                                   releaseDirection: Direction, button: Button, chargeTime: int, inputWindow: int)
    requires state.chargeStartTime.None?
    requires forall k :: 0 <= k < |events| ==>
      events[k].direction !in chargeDirections && !(events[k].direction == releaseDirection && Pressed(events[k], button))
    ensures Run(state, events, chargeDirections, releaseDirection, button, chargeTime, inputWindow) == state
    decreases |events|
  {
    if events != [] {
      var r := CheckChargeCommand(state, events[0], chargeDirections, releaseDirection, button, chargeTime, inputWindow);
      assert r.newState == state;
      RunAway(state, events[1..], chargeDirections, releaseDirection, button, chargeTime, inputWindow);
    }
  }

  /** Completeness of the charge matcher, the converse of
      FireNeedsCompletedCharge: starting from no charge, hold directions of
      the charge set, leave the set at least `chargeTime` after the hold
      began (with the first of `between`, or with the release itself when
      `between` is empty), let only events that are neither in the set nor
      the release direction with the button pass, and press the release
      direction with the button within `inputWindow` of leaving: the release
      fires. */
  lemma HeldChargeFires(holds: seq<InputRecord>, between: seq<InputRecord>, release: InputRecord, chargeDirections: seq<Direction>,
                        releaseDirection: Direction, button: Button, chargeTime: int, inputWindow: int)
    requires holds != [] && forall k :: 0 <= k < |holds| ==> holds[k].direction in chargeDirections
    requires forall k :: 0 <= k < |between| ==>
      between[k].direction !in chargeDirections && !(between[k].direction == releaseDirection && Pressed(between[k], button))
    requires release.direction == releaseDirection && Pressed(release, button)
    requires between == [] ==> release.direction !in chargeDirections
    requires var leave := if between == [] then release else between[0];
      leave.timestamp - holds[0].timestamp >= chargeTime && release.timestamp - leave.timestamp <= inputWindow
    ensures FiresOnLast(NoCharge, holds + between + [release], chargeDirections, releaseDirection, button, chargeTime, inputWindow)
  {
    var events := holds + between + [release];
    assert events[..|events| - 1] == holds + between;
    RunAppend(NoCharge, holds, between, chargeDirections, releaseDirection, button, chargeTime, inputWindow);
    RunHolding(NoCharge, holds, chargeDirections, releaseDirection, button, chargeTime, inputWindow);
    var held := ChargeState(Some(holds[0].timestamp), None);
    if between != [] {
      var r := CheckChargeCommand(held, between[0], chargeDirections, releaseDirection, button, chargeTime, inputWindow);
      assert r.newState == ChargeState(None, Some(between[0].timestamp));
      RunAway(r.newState, between[1..], chargeDirections, releaseDirection, button, chargeTime, inputWindow);
    }
  }

  /** Side symmetry: with a charge set that holds the mirror of exactly the
      directions of another (as the 2P set of a command holds the mirrors
      of its 1P set), the mirrored event steps the state as the original
      event steps it with the original set and release direction. */
  lemma CheckChargeMirrored(state: ChargeState, event: InputRecord, chargeDirections: seq<Direction>, mirroredDirections: seq<Direction>,
                            releaseDirection: Direction, button: Button, chargeTime: int, inputWindow: int)
    requires forall d :: Mirror(d) in mirroredDirections <==> d in chargeDirections
    ensures CheckChargeCommand(state, MirrorRecord(event), mirroredDirections, Mirror(releaseDirection), button, chargeTime, inputWindow)
         == CheckChargeCommand(state, event, chargeDirections, releaseDirection, button, chargeTime, inputWindow)
  {
    MirrorInjective(event.direction, releaseDirection);
  }
}
