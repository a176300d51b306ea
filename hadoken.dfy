// The Hadouken hook (useHadoken): its own copy of the motion matcher over
// records without a kick flag, with the button fixed to punch, and its own
// buffer pruned strictly to the input window.
module Hadoken {
  import opened Types
  import Motion
  import CommandHook

  const Sequence1P: seq<Direction> := [Down, DownRight, Right]
  const Sequence2P: seq<Direction> := [Down, DownLeft, Left]
  const DefaultInputWindow := 500

  /** The hook's buffered record: direction, punch and time only. */
  datatype HadokenRecord = HadokenRecord(direction: Direction, punch: bool, timestamp: int)

  /** The full record a Hadouken record stands for: kick not held. */
  function Full(r: HadokenRecord): InputRecord
  {
    InputRecord(r.direction, r.punch, false, r.timestamp)
  }

  function Lift(rs: seq<HadokenRecord>): (l: seq<InputRecord>)
    ensures |l| == |rs|
    ensures forall k :: 0 <= k < |rs| ==> l[k] == Full(rs[k])
  {
    seq(|rs|, k requires 0 <= k < |rs| => Full(rs[k]))
  }

  /** The event with its kick flag dropped. */
  function WithoutKick(e: InputRecord): InputRecord
  {
    e.(kick := false)
  }

  lemma LiftSnoc(rs: seq<HadokenRecord>, r: HadokenRecord)
    ensures Lift(rs + [r]) == Lift(rs) + [Full(r)]
  {
  }

  /** The inclusive window filter on Hadouken records; it agrees with the
      filter on full records. */
  function Recent(inputs: seq<HadokenRecord>, now: int, window: int): (r: seq<HadokenRecord>)
    ensures Lift(r) == Motion.Recent(Lift(inputs), now, window)
  {
    if inputs == [] then []
    else
      var init := inputs[..|inputs| - 1];
      var last := inputs[|inputs| - 1];
      assert Lift(inputs)[..|inputs| - 1] == Lift(init);
      var r := Recent(init, now, window) + (if now - last.timestamp <= window then [last] else []);
      assert now - last.timestamp <= window ==> Lift(r) == Lift(Recent(init, now, window)) + [Full(last)];
      r
  }

  /** The window test on full records, read back on Hadouken records. */
  lemma WindowMatchesOnRecords(recent: seq<HadokenRecord>, sequence: seq<Direction>)
    ensures Motion.WindowMatches(Lift(recent), sequence, Punch)
        <==> (&& |recent| >= |sequence| + 1
              && recent[|recent| - 1].punch
              && |sequence| > 0
              && Motion.GreedyCount(sequence, Motion.Directions(Lift(recent[..|recent| - 1]))) == |sequence|)
  {
    if |recent| > 0 {
      assert Lift(recent)[..|recent| - 1] == Lift(recent[..|recent| - 1]);
    }
  }

  /** matchesSequence of this hook: as the unified matcher with the button
      fixed to punch, on the records with kick not held. */
  method MatchesSequence(inputs: seq<HadokenRecord>, sequence: seq<Direction>, inputWindow: int)
    returns (matched: bool)
    ensures matched == Motion.MotionMatches(Lift(inputs), sequence, Punch, inputWindow)
  {
    if |inputs| == 0 {
      return false;
    }
    var now := inputs[|inputs| - 1].timestamp;
    var recentInputs := Recent(inputs, now, inputWindow);
    assert Motion.MotionMatches(Lift(inputs), sequence, Punch, inputWindow) == Motion.WindowMatches(Lift(recentInputs), sequence, Punch);
    WindowMatchesOnRecords(recentInputs, sequence);
    if |recentInputs| < |sequence| + 1 {
      return false;
    }
    var lastInput := recentInputs[|recentInputs| - 1];
    if !lastInput.punch {
      return false;
    }
    matched := ScanInOrder(recentInputs[..|recentInputs| - 1], sequence);
  }

  /** The loop of matchesSequence: walk the direction records once, advancing
      through `sequence` on each equal direction, and report whether all of
      it was met. */
  method ScanInOrder(directionInputs: seq<HadokenRecord>, sequence: seq<Direction>) returns (found: bool)
    ensures found == (|sequence| > 0 && Motion.GreedyCount(sequence, Motion.Directions(Lift(directionInputs))) == |sequence|)
  {
    ghost var directions := Motion.Directions(Lift(directionInputs));
    var seqIdx := 0;
    for i := 0 to |directionInputs|
      invariant seqIdx == Motion.GreedyCount(sequence, directions[..i])
      invariant seqIdx < |sequence| || sequence == []
    {
      assert directions[..i + 1][..i] == directions[..i];
      if seqIdx < |sequence| && directionInputs[i].direction == sequence[seqIdx] {
        seqIdx := seqIdx + 1;
        if seqIdx == |sequence| {
          Motion.GreedyMonotone(sequence, directions, i + 1);
          return true;
        }
      }
    }
    assert directions[..|directionInputs|] == directions;
    return false;
  }

  /** Every record with its kick flag dropped. */
  function StripKick(inputs: seq<InputRecord>): (r: seq<InputRecord>)
    ensures |r| == |inputs|
    ensures forall k :: 0 <= k < |inputs| ==> r[k] == WithoutKick(inputs[k])
  {
    seq(|inputs|, k requires 0 <= k < |inputs| => WithoutKick(inputs[k]))
  }

  lemma StripKickSnoc(inputs: seq<InputRecord>, e: InputRecord)
    ensures StripKick(inputs + [e]) == StripKick(inputs) + [WithoutKick(e)]
  {
  }

  /** The window filter commutes with dropping kick flags. */
  lemma {:induction false} RecentWithoutKick(inputs: seq<InputRecord>, now: int, window: int)
    ensures Motion.Recent(StripKick(inputs), now, window) == StripKick(Motion.Recent(inputs, now, window))
  {
    if inputs != [] {
      var init := inputs[..|inputs| - 1];
      var last := inputs[|inputs| - 1];
      assert inputs == init + [last];
      StripKickSnoc(init, last);
      RecentWithoutKick(init, now, window);
      StripKickSnoc(Motion.Recent(init, now, window), last);
    }
  }

  /** Dropping kick flags never changes a punch match. */
  lemma PunchMatchIgnoresKick(inputs: seq<InputRecord>, sequence: seq<Direction>, inputWindow: int)
    ensures Motion.MotionMatches(StripKick(inputs), sequence, Punch, inputWindow)
        <==> Motion.MotionMatches(inputs, sequence, Punch, inputWindow)
  {
    if |inputs| > 0 {
      var now := inputs[|inputs| - 1].timestamp;
      assert StripKick(inputs)[|inputs| - 1].timestamp == now;
      RecentWithoutKick(inputs, now, inputWindow);
      PunchWindowIgnoresKick(Motion.Recent(inputs, now, inputWindow), sequence);
    }
  }

  lemma PunchWindowIgnoresKick(recent: seq<InputRecord>, sequence: seq<Direction>)
    ensures Motion.WindowMatches(StripKick(recent), sequence, Punch) <==> Motion.WindowMatches(recent, sequence, Punch)
  {
    if |recent| > 0 {
      assert Motion.Directions(StripKick(recent)[..|recent| - 1]) == Motion.Directions(recent[..|recent| - 1]);
    }
  }

  class Hadoken {
    const sequence: seq<Direction>
    const inputWindow: int
    var inputBuffer: seq<HadokenRecord>

    /** The hook with its defaults: side 1P, window 500. */
    constructor (side: Option<Side>, inputWindow: Option<int>)
      ensures sequence == if OrElse(side, P1) == P1 then Sequence1P else Sequence2P
      ensures this.inputWindow == OrElse(inputWindow, DefaultInputWindow)
      ensures inputBuffer == []
    {
      sequence := if OrElse(side, P1) == P1 then Sequence1P else Sequence2P;
      this.inputWindow := OrElse(inputWindow, DefaultInputWindow);
      inputBuffer := [];
    }

    /** handleInput: push the event without its kick flag, prune strictly to
        the window, match with punch; a match empties the buffer and fires
        once. On full records this is the single-command hook's step for
        the Hadouken sequence and punch. */
    method HandleInput(event: InputRecord) returns (fired: bool)
      modifies this
      ensures var pruned := CommandHook.Prune(Lift(old(inputBuffer)) + [WithoutKick(event)], event.timestamp, inputWindow);
        && fired == Motion.MotionMatches(pruned, sequence, Punch, inputWindow)
        && Lift(inputBuffer) == if fired then [] else pruned
    {
      var record := HadokenRecord(event.direction, event.punch, event.timestamp);
      LiftSnoc(inputBuffer, record);
      inputBuffer := inputBuffer + [record];
      inputBuffer := Recent(inputBuffer, event.timestamp, inputWindow - 1);
      fired := MatchesSequence(inputBuffer, sequence, inputWindow);
      if fired {
        inputBuffer := [];
      }
    }
  }
}
