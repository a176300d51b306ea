// The Shun Goku Satsu hook (useShunGokuSatsu): the five-step sequence
// punch, punch, forward, kick, punch, with the step index and the time of
// the last advance held as fields and updated in place.
module ShunGokuSatsu {
  import opened Types
  import opened Sequence

  const DefaultInputWindow := 1000

  /** Forward is right for 1P and left for 2P. */
  function Forward(side: Side): (d: Direction)
    ensures side == P1 ==> d == Right
    ensures side == P2 ==> d == Left
  {
    if side == P1 then Right else Left
  }

  /** P, P, forward, K, P. */
  function Steps(forward: Direction): (s: seq<SequenceStep>)
    ensures |s| == 5
    ensures s[0] == s[1] == s[4] == PunchStep && s[2] == DirectionStep(forward) && s[3] == KickStep
  {
    [PunchStep, PunchStep, DirectionStep(forward), KickStep, PunchStep]
  }

  class ShunGokuSatsu {
    const sequence: seq<SequenceStep>
    const inputWindow: int
    const enabled: bool
    var sequenceIndex: nat
    var lastInputTime: int

    /** The index always points into the five steps. */
    ghost predicate Valid()
      reads this
    {
      |sequence| == 5 && sequence[0] == PunchStep && sequenceIndex < 5
    }

    function State(): SequenceState
      reads this
    {
      SequenceState(sequenceIndex, lastInputTime)
    }

    /** The hook with its defaults: side 1P, window 1000, enabled; at the
        first step with no advance recorded. */
    constructor (side: Option<Side>, inputWindow: Option<int>, enabled: Option<bool>)
      ensures Valid()
      ensures sequence == Steps(Forward(OrElse(side, P1)))
      ensures this.inputWindow == OrElse(inputWindow, DefaultInputWindow)
      ensures this.enabled == OrElse(enabled, true)
      ensures State() == Start
    {
      sequence := Steps(Forward(OrElse(side, P1)));
      this.inputWindow := OrElse(inputWindow, DefaultInputWindow);
      this.enabled := OrElse(enabled, true);
      sequenceIndex := 0;
      lastInputTime := 0;
    }

    /** handleInput: when enabled, the hook steps exactly as the unified
        sequence matcher does on its five steps, so the index stays below 5;
        when disabled nothing changes and nothing fires. */
    method HandleInput(event: InputRecord) returns (fired: bool)
      requires Valid()
      modifies this
      ensures Valid()
      ensures !enabled ==> !fired && State() == old(State())
      ensures enabled ==>
        var r := CheckButtonSequence(old(State()), event, sequence, inputWindow);
        fired == r.matched && State() == r.newState
    {
      if !enabled {
        return false;
      }
      if lastInputTime > 0 && event.timestamp - lastInputTime > inputWindow {
        sequenceIndex := 0;
      }
      var currentStep := sequence[sequenceIndex];
      var matched := false;
      if currentStep == PunchStep && event.punch {
        matched := true;
      } else if currentStep == KickStep && event.kick {
        matched := true;
      } else if currentStep.DirectionStep? && event.direction == currentStep.direction && !event.punch && !event.kick {
        matched := true;
      }
      fired := false;
      if matched {
        lastInputTime := event.timestamp;
        sequenceIndex := sequenceIndex + 1;
        if sequenceIndex >= |sequence| {
          sequenceIndex := 0;
          lastInputTime := 0;
          fired := true;
        }
      } else if event.punch || event.kick || event.direction != Neutral {
        if currentStep == PunchStep && event.punch {
          // A punch on a punch step has matched above.
          assert false;
        } else if sequence[0] == PunchStep && event.punch {
          sequenceIndex := 1;
          lastInputTime := event.timestamp;
        } else {
          sequenceIndex := 0;
          lastInputTime := 0;
        }
      }
    }
  }

  // ---------------------------------------------------------------------
  // Traces. Each press and each release of a key is one input event; the
  // events below are those a press-and-release of P, P, forward, K, P
  // produces, at the given times.
  // ---------------------------------------------------------------------

  function Ev(d: Direction, punch: bool, kick: bool, t: int): InputRecord
  {
    InputRecord(d, punch, kick, t)
  }

  /** Press-and-release of punch, twice, at times t and u. */
  function PunchPunch(t: int, u: int): seq<InputRecord>
  {
    [Ev(Neutral, true, false, t), Ev(Neutral, false, false, t), Ev(Neutral, true, false, u), Ev(Neutral, false, false, u)]
  }

  /** Press-and-release of forward at time f, of kick at time k, then a
      punch press at time p. */
  function ForwardKickPunch(forward: Direction, f: int, k: int, p: int): seq<InputRecord>
  {
    [Ev(forward, false, false, f), Ev(Neutral, false, false, f),
     Ev(Neutral, false, true, k), Ev(Neutral, false, false, k),
     Ev(Neutral, true, false, p)]
  }

  /** The full command fires on its last event, for either side, when every
      press follows the previous one within the window. */
  lemma FullCommandFires(side: Side, t: int, u: int, f: int, k: int, p: int, inputWindow: int)
    requires inputWindow >= 0 && u - t <= inputWindow && f - u <= inputWindow && k - f <= inputWindow && p - k <= inputWindow
    ensures FiresOnLast(Start, PunchPunch(t, u) + ForwardKickPunch(Forward(side), f, k, p), Steps(Forward(side)), inputWindow)
  {
    var steps := Steps(Forward(side));
    var evs := PunchPunch(t, u) + ForwardKickPunch(Forward(side), f, k, p);
    var a, b, c, d := SequenceState(1, t), SequenceState(2, u), SequenceState(3, f), SequenceState(4, k);
    RunThrough([Start, a, a, b, b, c, c, d, d], evs[..8], steps, inputWindow);
  }

  /** The prefix P, P alone never completes the command (its events leave
      the state at the third step). */
  lemma PunchPunchAloneDoesNotFire(side: Side, t: int, u: int, inputWindow: int)
    requires 0 < t <= u && u - t <= inputWindow
    ensures Run(Start, PunchPunch(t, u), Steps(Forward(side)), inputWindow) == SequenceState(2, u)
    ensures forall k :: 1 <= k <= 4 ==> !FiresOnLast(Start, PunchPunch(t, u)[..k], Steps(Forward(side)), inputWindow)
  {
    var steps := Steps(Forward(side));
    var evs := PunchPunch(t, u);
    var states := [Start, SequenceState(1, t), SequenceState(1, t), SequenceState(2, u), SequenceState(2, u)];
    forall k | 1 <= k <= 4 ensures !FiresOnLast(Start, evs[..k], steps, inputWindow) {
      RunThrough(states[..k], evs[..k][..k - 1], steps, inputWindow);
    }
    RunThrough(states, evs, steps, inputWindow);
  }

  /** P, P, then a pause longer than the window, then forward, K, P: the
      forward press finds the sequence timed out and not at a punch, so it
      resets, and the final punch only restarts the sequence. */
  lemma PauseAfterPunchPunchDoesNotFire(side: Side, t: int, gap: int, inputWindow: int)
    requires t > 0 && inputWindow >= 0 && gap > inputWindow
    ensures var evs := PunchPunch(t, t) + ForwardKickPunch(Forward(side), t + gap, t + gap, t + gap);
      Run(Start, evs, Steps(Forward(side)), inputWindow) == SequenceState(1, t + gap)
      && !FiresOnLast(Start, evs, Steps(Forward(side)), inputWindow)
  {
    var steps := Steps(Forward(side));
    var evs := PunchPunch(t, t) + ForwardKickPunch(Forward(side), t + gap, t + gap, t + gap);
    var a, b := SequenceState(1, t), SequenceState(2, t);
    var states := [Start, a, a, b, b, Start, Start, Start, Start, SequenceState(1, t + gap)];
    RunThrough(states, evs, steps, inputWindow);
    RunThrough(states[..9], evs[..8], steps, inputWindow);
  }
}
