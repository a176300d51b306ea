// The button-sequence matcher of the unified detector (checkButtonSequence):
// a list of punch, kick and direction steps, each to be entered within
// `inputWindow` of the previous advance.
module Sequence {
  import opened Types

  datatype SequenceStep = PunchStep | KickStep | DirectionStep(direction: Direction)

  /** How far the sequence has got, and when it last advanced (0 for never). */
  datatype SequenceState = SequenceState(sequenceIndex: nat, lastInputTime: int)

  const Start := SequenceState(0, 0)

  datatype SequenceResult = SequenceResult(matched: bool, newState: SequenceState)

  /** A punch step takes any event with punch held, a kick step any event
      with kick held, and a direction step only that exact direction with
      neither button held. */
  predicate StepMatches(step: SequenceStep, event: InputRecord)
  {
    match step
    case PunchStep => event.punch
    case KickStep => event.kick
    case DirectionStep(d) => event.direction == d && !event.punch && !event.kick
  }

  /** A neutral event with no button: a key release, typically. */
  predicate IsIdle(event: InputRecord)
  {
    !event.punch && !event.kick && event.direction == Neutral
  }

  /** Whether the previous advance is too long ago; never when no advance
      has been recorded (`lastInputTime` of 0 or less). */
  predicate TimedOut(state: SequenceState, event: InputRecord, inputWindow: int)
  {
    state.lastInputTime > 0 && event.timestamp - state.lastInputTime > inputWindow
  }

  /** The step index the event is tested against: 0 after a timeout. */
  function EffectiveIndex(state: SequenceState, event: InputRecord, inputWindow: int): nat
  {
    if TimedOut(state, event, inputWindow) then 0 else state.sequenceIndex
  }

  /** checkButtonSequence, on a copy of the caller's state. The index must
      point into the sequence: the code reads `sequence[sequenceIndex]` and
      `sequence[0]` unguarded. */
  function CheckButtonSequence(state: SequenceState, event: InputRecord, sequence: seq<SequenceStep>, inputWindow: int): (r: SequenceResult)
    requires 0 <= state.sequenceIndex < |sequence|
    ensures r.newState.sequenceIndex < |sequence|
    ensures var i := EffectiveIndex(state, event, inputWindow);
      && (r.matched <==> StepMatches(sequence[i], event) && i == |sequence| - 1)
      && (r.matched ==> r.newState == Start)
      && (StepMatches(sequence[i], event) && !r.matched ==> r.newState == SequenceState(i + 1, event.timestamp))
      && (!StepMatches(sequence[i], event) && IsIdle(event) ==> r.newState == SequenceState(i, state.lastInputTime))
      && (!StepMatches(sequence[i], event) && !IsIdle(event) ==>
            r.newState == if sequence[0] == PunchStep && event.punch then SequenceState(1, event.timestamp) else Start)
  {
    var i := EffectiveIndex(state, event, inputWindow);
    if StepMatches(sequence[i], event) then
      if i + 1 >= |sequence| then SequenceResult(true, Start)
      else SequenceResult(false, SequenceState(i + 1, event.timestamp))
    else if !IsIdle(event) then
      if sequence[0] == PunchStep && event.punch then
        // The restart is reachable only from a later step: at step 0 the
        // same event would have matched the punch step.
        SequenceResult(false, SequenceState(1, event.timestamp))
      else SequenceResult(false, Start)
    else SequenceResult(false, SequenceState(i, state.lastInputTime))
  }

  /** A matching step never takes the restart branch: at index 0 a punch
      event that the first step (a punch step) would restart on is taken as
      a match instead, so a restart needs index 1 or more and a sequence of
      at least two steps. */
  lemma RestartOnlyMidSequence(state: SequenceState, event: InputRecord, sequence: seq<SequenceStep>, inputWindow: int)
    requires 0 <= state.sequenceIndex < |sequence|
    requires CheckButtonSequence(state, event, sequence, inputWindow).newState == SequenceState(1, event.timestamp)
    requires !StepMatches(sequence[EffectiveIndex(state, event, inputWindow)], event)
    ensures EffectiveIndex(state, event, inputWindow) > 0 && |sequence| >= 2
  {
  }

  // ---------------------------------------------------------------------
  // Runs of events.
  // ---------------------------------------------------------------------

  /** The state after feeding `events` in order; the index stays in range
      by CheckButtonSequence's contract. */
  function Run(state: SequenceState, events: seq<InputRecord>, sequence: seq<SequenceStep>, inputWindow: int): (s: SequenceState)
    requires 0 <= state.sequenceIndex < |sequence|
    ensures s.sequenceIndex < |sequence|
    decreases |events|
  {
    if events == [] then state
    else Run(CheckButtonSequence(state, events[0], sequence, inputWindow).newState, events[1..], sequence, inputWindow)
  }

  /** Whether the last of `events` completes the sequence. */
  predicate FiresOnLast(state: SequenceState, events: seq<InputRecord>, sequence: seq<SequenceStep>, inputWindow: int)
    requires 0 <= state.sequenceIndex < |sequence|
    requires events != []
  {
    var before := Run(state, events[..|events| - 1], sequence, inputWindow);
    CheckButtonSequence(before, events[|events| - 1], sequence, inputWindow).matched
  }

  lemma {:induction false} RunSnoc(state: SequenceState, events: seq<InputRecord>, e: InputRecord, sequence: seq<SequenceStep>, inputWindow: int)
    requires 0 <= state.sequenceIndex < |sequence|
    ensures Run(state, events + [e], sequence, inputWindow)
         == CheckButtonSequence(Run(state, events, sequence, inputWindow), e, sequence, inputWindow).newState
    decreases |events|
  {
    if events == [] {
      assert [e][1..] == [];
    } else {
      assert (events + [e])[1..] == events[1..] + [e];
      RunSnoc(CheckButtonSequence(state, events[0], sequence, inputWindow).newState, events[1..], e, sequence, inputWindow);
    }
  }

  /** A run is determined step by step: given the state after each event,
      the run ends in the last of them. Used to evaluate concrete traces. */
  lemma {:induction false} RunThrough(states: seq<SequenceState>, events: seq<InputRecord>, sequence: seq<SequenceStep>, inputWindow: int)
    requires |states| == |events| + 1
    requires forall k :: 0 <= k < |states| ==> states[k].sequenceIndex < |sequence|
    requires forall k :: 0 <= k < |events| ==> states[k + 1] == CheckButtonSequence(states[k], events[k], sequence, inputWindow).newState
    ensures Run(states[0], events, sequence, inputWindow) == states[|events|]
    decreases |events|
  {
    if events != [] {
      RunThrough(states[1..], events[1..], sequence, inputWindow);
    }
  }

  /** `chain` lists, in increasing order, positions of `events` that entered
      the first |chain| steps, each within `inputWindow` of the one before. */
  ghost predicate Chain(events: seq<InputRecord>, chain: seq<int>, sequence: seq<SequenceStep>, inputWindow: int)
  {
    && |chain| <= |sequence|
    && (forall k :: 0 <= k < |chain| ==> 0 <= chain[k] < |events| && StepMatches(sequence[k], events[chain[k]]))
    && (forall k, l :: 0 <= k < l < |chain| ==> chain[k] < chain[l])
    && (forall k :: 0 < k < |chain| ==> events[chain[k]].timestamp - events[chain[k - 1]].timestamp <= inputWindow)
  }

  /** What a state reached from the start remembers: a non-zero index is
      backed by a chain of that many steps whose last advance is the
      recorded time. */
  ghost predicate Explained(s: SequenceState, events: seq<InputRecord>, sequence: seq<SequenceStep>, inputWindow: int)
  {
    s.sequenceIndex > 0 ==>
      exists chain :: Chain(events, chain, sequence, inputWindow) && |chain| == s.sequenceIndex
                      && events[chain[|chain| - 1]].timestamp == s.lastInputTime
  }

  predicate PositiveTimes(events: seq<InputRecord>)
  {
    forall k :: 0 <= k < |events| ==> events[k].timestamp > 0
  }

  lemma ChainExtend(events: seq<InputRecord>, e: InputRecord, chain: seq<int>, sequence: seq<SequenceStep>, inputWindow: int)
    requires Chain(events, chain, sequence, inputWindow)
    requires |chain| < |sequence| && StepMatches(sequence[|chain|], e)
    requires chain != [] ==> e.timestamp - events[chain[|chain| - 1]].timestamp <= inputWindow
    ensures Chain(events + [e], chain + [|events|], sequence, inputWindow)
  {
    var evs := events + [e];
    var c := chain + [|events|];
    forall k | 0 <= k < |c| ensures 0 <= c[k] < |evs| && StepMatches(sequence[k], evs[c[k]]) {
      if k < |chain| {
        assert evs[c[k]] == events[chain[k]];
      }
    }
    forall k | 0 < k < |c| ensures evs[c[k]].timestamp - evs[c[k - 1]].timestamp <= inputWindow {
      if k < |chain| {
        assert evs[c[k]] == events[chain[k]];
      }
      assert evs[c[k - 1]] == events[chain[k - 1]];
    }
  }

  lemma ChainWiden(events: seq<InputRecord>, e: InputRecord, chain: seq<int>, sequence: seq<SequenceStep>, inputWindow: int)
    requires Chain(events, chain, sequence, inputWindow)
    ensures Chain(events + [e], chain, sequence, inputWindow)
  {
    var evs := events + [e];
    forall k | 0 <= k < |chain| ensures evs[chain[k]] == events[chain[k]] {
    }
  }

  /** One step keeps a state explained, given positive timestamps. The
      returned flag says whether the step completed a chain of the full
      length ending at the new event. */
  lemma ExplainedStep(s: SequenceState, events: seq<InputRecord>, e: InputRecord, sequence: seq<SequenceStep>, inputWindow: int)
    requires 0 <= s.sequenceIndex < |sequence|
    requires PositiveTimes(events + [e])
    requires Explained(s, events, sequence, inputWindow)
    ensures Explained(CheckButtonSequence(s, e, sequence, inputWindow).newState, events + [e], sequence, inputWindow)
    ensures CheckButtonSequence(s, e, sequence, inputWindow).matched ==>
      exists chain :: Chain(events + [e], chain, sequence, inputWindow) && |chain| == |sequence|
                      && chain[|chain| - 1] == |events|
  {
    var evs := events + [e];
    var n := |events|;
    var r := CheckButtonSequence(s, e, sequence, inputWindow);
    var i := EffectiveIndex(s, e, inputWindow);
    assert evs[n] == e;
    if i > 0 {
      var chain :| Chain(events, chain, sequence, inputWindow) && |chain| == i
                   && events[chain[|chain| - 1]].timestamp == s.lastInputTime;
      assert events[chain[|chain| - 1]] in events;
      ChainWiden(events, e, chain, sequence, inputWindow);
      if StepMatches(sequence[i], e) {
        ChainExtend(events, e, chain, sequence, inputWindow);
        var c := chain + [n];
        assert evs[c[|c| - 1]] == e;
      } else if IsIdle(e) {
        assert evs[chain[|chain| - 1]] == events[chain[|chain| - 1]];
      }
    } else if StepMatches(sequence[i], e) {
      ChainExtend(events, e, [], sequence, inputWindow);
      assert evs[[n][0]] == e;
    }
    if !StepMatches(sequence[i], e) && !IsIdle(e) && sequence[0] == PunchStep && e.punch {
      ChainExtend(events, e, [], sequence, inputWindow);
      assert evs[[n][0]] == e;
    }
  }

  lemma {:induction false} RunExplained(events: seq<InputRecord>, sequence: seq<SequenceStep>, inputWindow: int)
    requires 0 < |sequence|
    requires PositiveTimes(events)
    ensures Explained(Run(Start, events, sequence, inputWindow), events, sequence, inputWindow)
    decreases |events|
  {
    if events != [] {
      var n := |events| - 1;
      var prefix := events[..n];
      assert prefix + [events[n]] == events;
      RunExplained(prefix, sequence, inputWindow);
      RunSnoc(Start, prefix, events[n], sequence, inputWindow);
      ExplainedStep(Run(Start, prefix, sequence, inputWindow), prefix, events[n], sequence, inputWindow);
    }
  }

  /** Soundness of the sequence matcher: from the start state, with positive
      timestamps, whenever the last event of a run completes the sequence,
      the run holds every step of the sequence in order, at increasing
      positions ending with that last event, each step entered within
      `inputWindow` of the previous one. */
  lemma FireNeedsFullChain(events: seq<InputRecord>, sequence: seq<SequenceStep>, inputWindow: int)
    requires 0 < |sequence|
    requires events != [] && PositiveTimes(events)
    requires FiresOnLast(Start, events, sequence, inputWindow)
    ensures exists chain :: Chain(events, chain, sequence, inputWindow) && |chain| == |sequence|
                            && chain[|chain| - 1] == |events| - 1
  {
    var n := |events| - 1;
    var prefix := events[..n];
    assert prefix + [events[n]] == events;
    RunExplained(prefix, sequence, inputWindow);
    ExplainedStep(Run(Start, prefix, sequence, inputWindow), prefix, events[n], sequence, inputWindow);
  }

  /** Completeness for an uninterrupted entry: from index k, events that
      enter steps k, k+1, ... up to the last, each within `inputWindow` of
      the previous advance (and the first not timed out), complete the
      sequence on the last event and not before. */
  lemma {:induction false} ConsecutiveStepsFire(state: SequenceState, events: seq<InputRecord>, sequence: seq<SequenceStep>, inputWindow: int)
    requires 0 <= state.sequenceIndex < |sequence|
    requires |events| == |sequence| - state.sequenceIndex
    requires forall k :: 0 <= k < |events| ==> StepMatches(sequence[state.sequenceIndex + k], events[k])
    requires state.sequenceIndex > 0 ==> !TimedOut(state, events[0], inputWindow)
    requires forall k :: 0 < k < |events| ==> events[k].timestamp - events[k - 1].timestamp <= inputWindow
    ensures FiresOnLast(state, events, sequence, inputWindow)
    decreases |events|
  {
    var e := events[0];
    var r := CheckButtonSequence(state, e, sequence, inputWindow);
    if state.sequenceIndex > 0 {
      assert EffectiveIndex(state, e, inputWindow) == state.sequenceIndex;
    }
    if |events| > 1 {
      var s1 := r.newState;
      assert s1 == SequenceState(state.sequenceIndex + 1, e.timestamp);
      var rest := events[1..];
      assert !TimedOut(s1, rest[0], inputWindow);
      ConsecutiveStepsFire(s1, rest, sequence, inputWindow);
      assert events[..|events| - 1][1..] == rest[..|rest| - 1];
    }
  }

  // ---------------------------------------------------------------------
  // Side symmetry
  // ---------------------------------------------------------------------

  /** A step as the other side sees it: direction steps mirrored. */
  function MirrorStep(step: SequenceStep): (m: SequenceStep)
    ensures m.DirectionStep? <==> step.DirectionStep?
    ensures m.DirectionStep? ==> m.direction == Mirror(step.direction)
    ensures !m.DirectionStep? ==> m == step
  {
    match step
    case DirectionStep(d) => DirectionStep(Mirror(d))
    case _ => step
  }

  function MirrorSteps(steps: seq<SequenceStep>): (ms: seq<SequenceStep>)
    ensures |ms| == |steps|
    ensures forall k :: 0 <= k < |steps| ==> ms[k] == MirrorStep(steps[k])
  {
    seq(|steps|, k requires 0 <= k < |steps| => MirrorStep(steps[k]))
  }

  /** The mirrored event against the mirrored steps is stepped exactly as
      the event against the steps. */
  lemma CheckButtonSequenceMirrored(state: SequenceState, event: InputRecord, sequence: seq<SequenceStep>, inputWindow: int)
    requires 0 <= state.sequenceIndex < |sequence|
    ensures CheckButtonSequence(state, MirrorRecord(event), MirrorSteps(sequence), inputWindow)
         == CheckButtonSequence(state, event, sequence, inputWindow)
  {
    var i := EffectiveIndex(state, event, inputWindow);
    assert EffectiveIndex(state, MirrorRecord(event), inputWindow) == i;
    if sequence[i].DirectionStep? {
      MirrorInjective(event.direction, sequence[i].direction);
    }
    assert IsIdle(MirrorRecord(event)) == IsIdle(event);
    assert (MirrorSteps(sequence)[0] == PunchStep) == (sequence[0] == PunchStep);
  }
}
